/**
 The term processor: resolves one cell value of an import file to a single term
 of a taxonomy, or to `false` with one entry added to its error ledger.

 A value holding " > " is a path from a top-level term down to the wanted term;
 any other value is a bare name that must identify exactly one term.
 */
module TermProcessor {
  import opened Options
  import opened PhpStrings
  import opened TermStore
  import opened ErrorLedger

  /** The hierarchy separator: space, greater-than, space. */
  const Separator: string := " > "

  const NotFoundKind: string := "terms_not_found"
  const MismatchKind: string := "hierarchy_mismatch"
  const DuplicateKind: string := "duplicate_terms"

  /** How a mismatch message names the root ("root" in Russian). */
  const RootName: string := "корень"

  /** What a processor call leaves behind: the term or `false`, and the processor's error map. */
  datatype Outcome = Outcome(term: Option<Term>, errors: Ledger)

  /** One error-map entry. */
  datatype Entry = Entry(kind: string, message: string)

  /** The decimal strings of `ids`, in order. */
  function IdStrings(ids: seq<nat>): (r: seq<string>)
    ensures |r| == |ids|
    ensures forall i :: 0 <= i < |ids| ==> r[i] == NatToString(ids[i])
  {
    if |ids| == 0 then [] else [NatToString(ids[0])] + IdStrings(ids[1..])
  }

  /** The ids in decimal, joined by a comma and a space, as the duplicate message lists them. */
  function IdList(ids: seq<nat>): string {
    Join(IdStrings(ids), ", ")
  }

  /** Reads each piece as a decimal number. */
  function ParseAll(parts: seq<string>): (r: seq<nat>)
    ensures |r| == |parts|
    ensures forall i :: 0 <= i < |parts| ==> r[i] == ParseNat(parts[i])
  {
    if |parts| == 0 then [] else [ParseNat(parts[0])] + ParseAll(parts[1..])
  }

  /** Reads an id list back. */
  function ParseIdList(s: string): seq<nat> {
    ParseAll(Split(s, ", "))
  }

  /** A non-empty id list names exactly the ids it was made from, in the same order. */
  lemma IdListRoundTrip(ids: seq<nat>)
    requires |ids| > 0
    ensures ParseIdList(IdList(ids)) == ids
  {
    var parts := IdStrings(ids);
    forall p | p in parts
      ensures ',' !in p
    {
      var i :| 0 <= i < |parts| && parts[i] == p;
      assert forall j :: 0 <= j < |p| ==> IsDigit(p[j]);
    }
    SplitJoin(parts, ", ");
    forall i | 0 <= i < |ids|
      ensures ParseAll(parts)[i] == ids[i]
    {
      ParseNatToString(ids[i]);
    }
  }

  /** `s` between double quotes, as every message cites a name or a value. */
  function Quoted(s: string): string {
    "\"" + s + "\""
  }

  /** A missing bare name: the taxonomy, a colon, then the name in double quotes. */
  function NotFoundMessage(taxonomy: string, name: string): (r: string)
    ensures taxonomy + ": " <= r
    ensures Contains(r, Quoted(name))
  {
    var r := taxonomy + ": " + Quoted(name);
    ContainsSelf(Quoted(name));
    ContainsExtend(Quoted(name), taxonomy + ": ", Quoted(name));
    r
  }

  /** An ambiguous bare name: the not-found text, then every id and advice to give a full path. */
  function DuplicateMessage(taxonomy: string, name: string, ids: seq<nat>): (r: string)
    ensures NotFoundMessage(taxonomy, name) <= r
    ensures Contains(r, " (IDs: " + IdList(ids) + ")")
  {
    var r := taxonomy + ": " + Quoted(name) + " (IDs: " + IdList(ids) + ")" + " - используйте полный путь " + Quoted("родитель > потомок");
    var head := taxonomy + ": " + Quoted(name);
    var list := " (IDs: " + IdList(ids) + ")";
    var advice := " - используйте полный путь " + Quoted("родитель > потомок");
    assert r == head + list + advice;
    ContainsSelf(list);
    ContainsExtend(list, head, list);
    ContainsExtend(head + list, advice, list);
    r
  }

  /** A path level with no term of that name: the level and the whole path, each in double quotes. */
  function LevelNotFoundMessage(taxonomy: string, level: string, value: string): (r: string)
    ensures NotFoundMessage(taxonomy, level) <= r
    ensures Contains(r, Quoted(level)) && Contains(r, Quoted(value))
  {
    var r := taxonomy + ": " + Quoted(level) + " в иерархии " + Quoted(value);
    var head := taxonomy + ": " + Quoted(level);
    ContainsSelf(Quoted(level));
    ContainsExtend(Quoted(level), taxonomy + ": ", Quoted(level));
    ContainsExtend(head, " в иерархии ", Quoted(level));
    ContainsExtend(head + " в иерархии ", Quoted(value), Quoted(level));
    ContainsSelf(Quoted(value));
    ContainsExtend(Quoted(value), head + " в иерархии ", Quoted(value));
    r
  }

  /** A path level found only under other parents: the level, the expected parent's name and the whole path, each in double quotes. */
  function MismatchMessage(taxonomy: string, level: string, parentName: string, value: string): (r: string)
    ensures taxonomy + ": " <= r
    ensures Contains(r, Quoted(level)) && Contains(r, Quoted(parentName)) && Contains(r, Quoted(value))
  {
    var r := taxonomy + ": термин " + Quoted(level) + " не найден как дочерний для " + Quoted(parentName) + " в иерархии " + Quoted(value);
    var p1 := taxonomy + ": термин " + Quoted(level);
    var p2 := p1 + " не найден как дочерний для ";
    var p3 := p2 + Quoted(parentName);
    var p4 := p3 + " в иерархии ";
    assert r == p4 + Quoted(value);
    ContainsSelf(Quoted(level));
    ContainsExtend(Quoted(level), taxonomy + ": термин ", Quoted(level));
    ContainsExtend(p1, " не найден как дочерний для ", Quoted(level));
    ContainsExtend(p2, Quoted(parentName), Quoted(level));
    ContainsExtend(p3, " в иерархии ", Quoted(level));
    ContainsExtend(p4, Quoted(value), Quoted(level));
    ContainsSelf(Quoted(parentName));
    ContainsExtend(Quoted(parentName), p2, Quoted(parentName));
    ContainsExtend(p3, " в иерархии ", Quoted(parentName));
    ContainsExtend(p4, Quoted(value), Quoted(parentName));
    ContainsSelf(Quoted(value));
    ContainsExtend(Quoted(value), p4, Quoted(value));
    r
  }

  /**
   The name a mismatch message gives the expected parent: the root word for id 0,
   otherwise the name `get_term` finds; PHP reads the name of a missing term as "".
   */
  function ParentName(terms: seq<Term>, parentId: nat): (r: string)
    ensures parentId == Root ==> r == RootName
    ensures parentId != Root && (forall t :: t in terms ==> t.id != parentId) ==> r == ""
    ensures IdsWellFormed(terms) ==> forall t :: t in terms && t.id == parentId ==> r == t.name
  {
    if parentId == Root then RootName
    else match TermById(terms, parentId)
      case Some(p) => p.name
      case None => ""
  }

  /** The parent a walk has reached after resolving `chain`. */
  function ParentAfter(parentId: nat, chain: seq<Term>): nat {
    if |chain| == 0 then parentId else chain[|chain| - 1].id
  }

  /** Along a walk from the root on a store with proper ids, the expected parent is named after the last resolved term. */
  lemma ParentNameAlongPath(terms: seq<Term>, chain: seq<Term>)
    requires IdsWellFormed(terms)
    requires forall i :: 0 <= i < |chain| ==> chain[i] in terms
    ensures ParentName(terms, ParentAfter(Root, chain)) == if |chain| == 0 then RootName else chain[|chain| - 1].name
  {
    if |chain| > 0 {
      var t := chain[|chain| - 1];
      assert t in terms;
      TermByIdFindsStored(terms, t);
    }
  }

  /** The levels of a path value: its pieces between separators, each trimmed. */
  function Levels(value: string): (r: seq<string>)
    ensures |r| == |Split(value, Separator)| && |r| >= 1
  {
    TrimAll(Split(value, Separator))
  }

  /** Level i is explode's piece i, trimmed. */
  lemma LevelsArePieces(value: string)
    ensures forall i :: 0 <= i < |Levels(value)| ==> Levels(value)[i] == Trim(Split(value, Separator)[i])
  {
  }

  /** Every level is trimmed: none starts or ends with a character `trim` strips. */
  lemma LevelsAreTrimmed(value: string)
    ensures forall i :: 0 <= i < |Levels(value)| ==> HasTrimmedEdges(Levels(value)[i])
  {
    var parts := Split(value, Separator);
    forall i | 0 <= i < |Levels(value)|
      ensures HasTrimmedEdges(Levels(value)[i])
    {
      assert Levels(value)[i] == Trim(parts[i]);
      TrimEdges(parts[i]);
    }
  }

  /** A value holding the separator has at least two levels. */
  lemma LevelsOfPath(value: string)
    requires Contains(value, Separator)
    ensures |Levels(value)| >= 2
  {
    SplitHasManyPieces(value, Separator);
  }

  /**
   `chain` resolves `levels` from `parentId`: the i-th term is a stored term named
   after the i-th level, the first hangs under `parentId`, each later one under its
   predecessor.
   */
  ghost predicate IsPath(terms: seq<Term>, levels: seq<string>, parentId: nat, chain: seq<Term>) {
    && |chain| == |levels|
    && (forall i :: 0 <= i < |chain| ==> chain[i] in terms && chain[i].name == levels[i])
    && (|chain| > 0 ==> chain[0].parent == parentId)
    && (forall i :: 0 < i < |chain| ==> chain[i].parent == chain[i - 1].id)
  }

  /** A chain is a path exactly when its head is a correctly parented first level and its tail a path from the head. */
  lemma PathCons(terms: seq<Term>, levels: seq<string>, parentId: nat, chain: seq<Term>)
    requires |levels| > 0 && |chain| == |levels|
    ensures IsPath(terms, levels, parentId, chain) <==>
      && chain[0] in terms && chain[0].name == levels[0] && chain[0].parent == parentId
      && IsPath(terms, levels[1..], chain[0].id, chain[1..])
  {
    if chain[0] in terms && chain[0].name == levels[0] && chain[0].parent == parentId
       && IsPath(terms, levels[1..], chain[0].id, chain[1..]) {
      forall i | 0 < i < |chain|
        ensures chain[i] in terms && chain[i].name == levels[i] && chain[i].parent == chain[i - 1].id
      {
        assert chain[i] == chain[1..][i - 1];
        if i > 1 {
          assert chain[i - 1] == chain[1..][i - 2];
        }
      }
    }
  }

  /** What one level of the walk finds. */
  datatype LevelResult = Found(term: Term) | Missing | Misplaced

  /**
   One iteration of the walk: look the name up; when the term found hangs under the
   wrong parent, take the first child of the expected parent with that name instead.
   */
  function ResolveLevel(st: Store, level: string, parentId: nat): (r: LevelResult)
    requires Valid(st)
    ensures r.Missing? <==> !HasName(st.terms, level)
    ensures r.Misplaced? <==> HasName(st.terms, level) && ChildrenNamed(st.terms, level, parentId) == []
    ensures r.Found? ==> r.term in st.terms && r.term.name == level && r.term.parent == parentId
    ensures r.Found? && st.byName(level).value.parent != parentId ==> r.term == ChildrenNamed(st.terms, level, parentId)[0]
    ensures st.byName(level).Some? && st.byName(level).value.parent == parentId ==> r == Found(st.byName(level).value)
  {
    assert IsNameLookup(st.terms, level, st.byName(level));
    match st.byName(level)
    case None => Missing
    case Some(t) =>
      if t.parent != parentId then
        var children := ChildrenNamed(st.terms, level, parentId);
        if |children| == 0 then Misplaced
        else assert children[0] in children; Found(children[0])
      else
        assert t in ChildrenNamed(st.terms, level, parentId);
        Found(t)
  }

  /** When one child of the expected parent carries the name, the level resolves to it whatever the name lookup picked. */
  lemma ResolveLevelUniqueChild(st: Store, level: string, parentId: nat, t: Term)
    requires Valid(st) && SiblingNamesUnique(st.terms)
    requires t in st.terms && t.name == level && t.parent == parentId
    ensures ResolveLevel(st, level, parentId) == Found(t)
  {
    assert HasName(st.terms, level);
    assert t in ChildrenNamed(st.terms, level, parentId);
  }

  /** The ledger entry for a level that failed to resolve. */
  function LevelError(st: Store, taxonomy: string, value: string, level: string, parentId: nat, failed: LevelResult): (e: Entry)
    requires !failed.Found?
    ensures failed.Missing? ==> e.kind == NotFoundKind && e.message == LevelNotFoundMessage(taxonomy, level, value)
    ensures failed.Misplaced? ==>
              e.kind == MismatchKind && e.message == MismatchMessage(taxonomy, level, ParentName(st.terms, parentId), value)
  {
    if failed.Missing? then Entry(NotFoundKind, LevelNotFoundMessage(taxonomy, level, value))
    else Entry(MismatchKind, MismatchMessage(taxonomy, level, ParentName(st.terms, parentId), value))
  }

  /**
   The `foreach` over the levels: `found` is the last term resolved, `parentId`
   its id (or the root). The first level that fails adds one entry and ends the walk.
   */
  function Walk(st: Store, taxonomy: string, value: string, levels: seq<string>,
                parentId: nat, found: Option<Term>, errors: Ledger): (r: Outcome)
    requires Valid(st)
    ensures |levels| > 0 ==> (r.term.Some? <==> r.errors == errors)
    ensures |levels| > 0 && r.term.Some? ==> r.term.value in st.terms && r.term.value.name == levels[|levels| - 1]
    ensures r.term.None? && |levels| > 0 ==>
      exists kind, message :: kind in {NotFoundKind, MismatchKind} && r.errors == AddError(errors, kind, message)
    decreases |levels|
  {
    if |levels| == 0 then Outcome(found, errors)
    else
      var step := ResolveLevel(st, levels[0], parentId);
      if step.Found? then
        Walk(st, taxonomy, value, levels[1..], step.term.id, Some(step.term), errors)
      else
        var e := LevelError(st, taxonomy, value, levels[0], parentId, step);
        AddErrorChanges(errors, e.kind, e.message);
        Outcome(None, AddError(errors, e.kind, e.message))
  }

  /** The terms the walk resolves before its first failing level (all of them when none fails). */
  ghost function Trace(st: Store, levels: seq<string>, parentId: nat): (chain: seq<Term>)
    requires Valid(st)
    ensures |chain| <= |levels|
    ensures IsPath(st.terms, levels[..|chain|], parentId, chain)
    ensures |chain| < |levels| ==> !ResolveLevel(st, levels[|chain|], ParentAfter(parentId, chain)).Found?
    decreases |levels|
  {
    if |levels| == 0 then []
    else
      var step := ResolveLevel(st, levels[0], parentId);
      if step.Found? then
        var rest := Trace(st, levels[1..], step.term.id);
        var chain := [step.term] + rest;
        assert levels[..|chain|][1..] == levels[1..][..|rest|];
        PathCons(st.terms, levels[..|chain|], parentId, chain);
        assert chain[1..] == rest;
        assert |rest| < |levels[1..]| ==> levels[1..][|rest|] == levels[|chain|];
        assert ParentAfter(parentId, chain) == ParentAfter(step.term.id, rest);
        chain
      else []
  }

  /** A walk with no failing level returns the term of its last level and adds nothing. */
  lemma {:induction false} WalkSuccess(st: Store, taxonomy: string, value: string, levels: seq<string>,
                                       parentId: nat, found: Option<Term>, errors: Ledger)
    requires Valid(st) && |levels| > 0
    requires |Trace(st, levels, parentId)| == |levels|
    ensures Walk(st, taxonomy, value, levels, parentId, found, errors) ==
            Outcome(Some(Trace(st, levels, parentId)[|levels| - 1]), errors)
    decreases |levels|
  {
    var step := ResolveLevel(st, levels[0], parentId);
    assert step.Found?;
    if |levels| > 1 {
      WalkSuccess(st, taxonomy, value, levels[1..], step.term.id, Some(step.term), errors);
    }
  }

  /** A walk whose level k fails returns `false` and adds exactly that level's entry. */
  lemma {:induction false} WalkFailure(st: Store, taxonomy: string, value: string, levels: seq<string>,
                                       parentId: nat, found: Option<Term>, errors: Ledger)
    requires Valid(st)
    requires |Trace(st, levels, parentId)| < |levels|
    ensures var chain := Trace(st, levels, parentId);
            var k := |chain|;
            var p := ParentAfter(parentId, chain);
            var e := LevelError(st, taxonomy, value, levels[k], p, ResolveLevel(st, levels[k], p));
            Walk(st, taxonomy, value, levels, parentId, found, errors) == Outcome(None, AddError(errors, e.kind, e.message))
    decreases |levels|
  {
    var step := ResolveLevel(st, levels[0], parentId);
    if step.Found? {
      var t := step.term;
      var rest := Trace(st, levels[1..], t.id);
      var chain := [t] + rest;
      assert Trace(st, levels, parentId) == chain;
      assert Walk(st, taxonomy, value, levels, parentId, found, errors) ==
             Walk(st, taxonomy, value, levels[1..], t.id, Some(t), errors);
      WalkFailure(st, taxonomy, value, levels[1..], t.id, Some(t), errors);
      assert levels[1..][|rest|] == levels[|chain|];
      assert ParentAfter(parentId, chain) == ParentAfter(t.id, rest);
    } else {
      assert Trace(st, levels, parentId) == [];
    }
  }

  /** A failing walk never looks past the failing level: appending levels changes nothing. */
  lemma {:induction false} WalkFailFast(st: Store, taxonomy: string, value: string, levels: seq<string>,
                                        more: seq<string>, parentId: nat, found: Option<Term>, errors: Ledger)
    requires Valid(st) && |levels| > 0
    requires Walk(st, taxonomy, value, levels, parentId, found, errors).term.None?
    ensures Walk(st, taxonomy, value, levels + more, parentId, found, errors) ==
            Walk(st, taxonomy, value, levels, parentId, found, errors)
    decreases |levels|
  {
    var step := ResolveLevel(st, levels[0], parentId);
    assert (levels + more)[0] == levels[0];
    if step.Found? {
      assert (levels + more)[1..] == levels[1..] + more;
      assert Walk(st, taxonomy, value, levels, parentId, found, errors) ==
             Walk(st, taxonomy, value, levels[1..], step.term.id, Some(step.term), errors);
      WalkFailFast(st, taxonomy, value, levels[1..], more, step.term.id, Some(step.term), errors);
    } else {
      var e := LevelError(st, taxonomy, value, levels[0], parentId, step);
      assert Walk(st, taxonomy, value, levels, parentId, found, errors) == Outcome(None, AddError(errors, e.kind, e.message));
    }
  }

  /** When sibling names are unique, any path matching the levels is the one the walk follows. */
  lemma {:induction false} WalkFindsPath(st: Store, levels: seq<string>, parentId: nat, chain: seq<Term>)
    requires Valid(st) && SiblingNamesUnique(st.terms)
    requires IsPath(st.terms, levels, parentId, chain)
    ensures Trace(st, levels, parentId) == chain
    decreases |levels|
  {
    if |levels| > 0 {
      PathCons(st.terms, levels, parentId, chain);
      ResolveLevelUniqueChild(st, levels[0], parentId, chain[0]);
      WalkFindsPath(st, levels[1..], chain[0].id, chain[1..]);
    }
  }

  /** When sibling names are unique, the walk does not depend on how the name lookup breaks ties. */
  lemma {:induction false} WalkIgnoresTieBreak(st1: Store, st2: Store, taxonomy: string, value: string,
                                               levels: seq<string>, parentId: nat, found: Option<Term>, errors: Ledger)
    requires Valid(st1) && Valid(st2) && st1.terms == st2.terms && SiblingNamesUnique(st1.terms)
    ensures Walk(st1, taxonomy, value, levels, parentId, found, errors) ==
            Walk(st2, taxonomy, value, levels, parentId, found, errors)
    decreases |levels|
  {
    if |levels| > 0 {
      var step := ResolveLevel(st1, levels[0], parentId);
      if step.Found? {
        ResolveLevelUniqueChild(st2, levels[0], parentId, step.term);
        WalkIgnoresTieBreak(st1, st2, taxonomy, value, levels[1..], step.term.id, Some(step.term), errors);
      } else {
        assert !ResolveLevel(st2, levels[0], parentId).Found?;
      }
    }
  }

  /**
   Without unique sibling names the walk is greedy: with two top-level terms "A", of
   which only the second has a child "B", a picker that returns the first "A"
   makes "A > B" fail although the path exists.
   */
  lemma GreedyWalkMissesPath()
    ensures var a1 := Term(1, "A", Root);
            var a2 := Term(2, "A", Root);
            var b := Term(3, "B", 2);
            var terms := [a1, a2, b];
            var st := Store(terms, name => FirstNamed(terms, name));
            && Valid(st)
            && IsPath(terms, ["A", "B"], Root, [a2, b])
            && Walk(st, "cat", "A > B", ["A", "B"], Root, None, Empty).term.None?
  {
    var a1 := Term(1, "A", Root);
    var a2 := Term(2, "A", Root);
    var b := Term(3, "B", 2);
    var terms := [a1, a2, b];
    assert IsPath(terms, ["A", "B"], Root, [a2, b]) by {
      var chain := [a2, b];
      assert chain[0] == terms[1] && chain[1] == terms[2];
    }
    FirstNamedIsLookup(terms);
    var st := Store(terms, name => FirstNamed(terms, name));
    assert TermsNamed(terms, "A")[0] == a1;
    assert ResolveLevel(st, "A", Root) == Found(a1);
    assert terms[1..] == [a2, b] && terms[2..] == [b];
    assert ChildrenNamed([b], "B", 1) == [];
    assert ChildrenNamed(terms, "B", 1) == [];
    assert ResolveLevel(st, "B", 1) == Misplaced;
    var levels := ["A", "B"];
    assert levels[1..] == ["B"];
  }

  /** The flat contract: zero matches is "not found", several is a duplicate listing every id, one is returned. */
  ghost predicate FlatResolves(terms: seq<Term>, taxonomy: string, name: string, errors: Ledger, r: Outcome) {
    var matches := TermsNamed(terms, name);
    && (|matches| == 0 ==> r == Outcome(None, AddError(errors, NotFoundKind, NotFoundMessage(taxonomy, name))))
    && (|matches| == 1 ==> r == Outcome(Some(matches[0]), errors))
    && (|matches| > 1 ==> r == Outcome(None, AddError(errors, DuplicateKind, DuplicateMessage(taxonomy, name, Ids(matches)))))
  }

  /** `find_single_term`. */
  function FindSingleTerm(st: Store, taxonomy: string, name: string, errors: Ledger): (r: Outcome)
    requires Valid(st)
    ensures FlatResolves(st.terms, taxonomy, name, errors, r)
  {
    assert IsNameLookup(st.terms, name, st.byName(name));
    match st.byName(name)
    case None =>
      Outcome(None, AddError(errors, NotFoundKind, NotFoundMessage(taxonomy, name)))
    case Some(t) =>
      var duplicates := TermsNamed(st.terms, name);
      if |duplicates| > 1 then
        Outcome(None, AddError(errors, DuplicateKind, DuplicateMessage(taxonomy, name, Ids(duplicates))))
      else
        assert t in duplicates;
        Outcome(Some(t), errors)
  }

  /**
   The hierarchical contract, read off the walk's trace from the root: when every
   level resolves the leaf is returned and nothing is recorded; otherwise `false`
   and the entry of the first failing level.
   */
  ghost predicate PathResolves(st: Store, taxonomy: string, value: string, errors: Ledger, r: Outcome)
    requires Valid(st)
  {
    var levels := Levels(value);
    var chain := Trace(st, levels, Root);
    var k := |chain|;
    && (k == |levels| ==> r == Outcome(Some(chain[k - 1]), errors))
    && (k < |levels| ==>
          var p := ParentAfter(Root, chain);
          var e := LevelError(st, taxonomy, value, levels[k], p, ResolveLevel(st, levels[k], p));
          r == Outcome(None, AddError(errors, e.kind, e.message)))
  }

  /** `process_hierarchical_term`. */
  function ProcessHierarchicalTerm(st: Store, taxonomy: string, value: string, errors: Ledger): (r: Outcome)
    requires Valid(st)
    ensures PathResolves(st, taxonomy, value, errors, r)
  {
    WalkFromRoot(st, taxonomy, value, errors);
    Walk(st, taxonomy, value, Levels(value), Root, None, errors)
  }

  /** The walk from the root over the levels of `value` meets the hierarchical contract. */
  lemma WalkFromRoot(st: Store, taxonomy: string, value: string, errors: Ledger)
    requires Valid(st)
    ensures PathResolves(st, taxonomy, value, errors, Walk(st, taxonomy, value, Levels(value), Root, None, errors))
  {
    var levels := Levels(value);
    if |Trace(st, levels, Root)| == |levels| {
      WalkSuccess(st, taxonomy, value, levels, Root, None, errors);
    } else {
      WalkFailure(st, taxonomy, value, levels, Root, None, errors);
    }
  }

  /** `process_term`: PHP-empty values are skipped, paths go to the walk, bare names to the flat lookup. */
  function ProcessTerm(st: Store, taxonomy: string, value: string, errors: Ledger): (r: Outcome)
    requires Valid(st)
    ensures IsEmptyValue(value) ==> r == Outcome(None, errors)
    ensures !IsEmptyValue(value) && !Contains(value, Separator) ==> FlatResolves(st.terms, taxonomy, value, errors, r)
    ensures !IsEmptyValue(value) && Contains(value, Separator) ==> PathResolves(st, taxonomy, value, errors, r)
  {
    if IsEmptyValue(value) then Outcome(None, errors)
    else if IndexOf(value, Separator).None? then FindSingleTerm(st, taxonomy, value, errors)
    else ProcessHierarchicalTerm(st, taxonomy, value, errors)
  }

  /** Every call either returns a stored term and records nothing, or returns `false` and records at most one entry. */
  lemma ProcessTermRecordsAtMostOne(st: Store, taxonomy: string, value: string, errors: Ledger)
    requires Valid(st)
    ensures var r := ProcessTerm(st, taxonomy, value, errors);
            && (r.term.Some? ==> r.errors == errors && r.term.value in st.terms)
            && (r.term.None? ==> r.errors == errors || exists kind, message :: r.errors == AddError(errors, kind, message))
  {
    var r := ProcessTerm(st, taxonomy, value, errors);
    if !IsEmptyValue(value) && Contains(value, Separator) {
      LevelsOfPath(value);
      var levels := Levels(value);
      var chain := Trace(st, levels, Root);
      if |chain| == |levels| {
        assert chain[|levels| - 1] in st.terms;
      } else {
        var p := ParentAfter(Root, chain);
        var e := LevelError(st, taxonomy, value, levels[|chain|], p, ResolveLevel(st, levels[|chain|], p));
        assert r.errors == AddError(errors, e.kind, e.message);
      }
    } else if !IsEmptyValue(value) {
      var matches := TermsNamed(st.terms, value);
      if |matches| == 1 {
        assert matches[0] in matches;
      }
    }
  }

  /** A path value whose every level has a matching term under the previous one resolves to its last term, when sibling names are unique. */
  lemma ProcessTermFindsPath(st: Store, taxonomy: string, value: string, errors: Ledger, chain: seq<Term>)
    requires Valid(st) && SiblingNamesUnique(st.terms)
    requires !IsEmptyValue(value) && Contains(value, Separator)
    requires IsPath(st.terms, Levels(value), Root, chain)
    ensures ProcessTerm(st, taxonomy, value, errors) == Outcome(Some(chain[|chain| - 1]), errors)
  {
    WalkFindsPath(st, Levels(value), Root, chain);
    FullTraceResolves(st, taxonomy, value, errors, ProcessTerm(st, taxonomy, value, errors));
  }

  /** When the trace covers every level, the hierarchical contract returns its last term. */
  lemma FullTraceResolves(st: Store, taxonomy: string, value: string, errors: Ledger, r: Outcome)
    requires Valid(st) && PathResolves(st, taxonomy, value, errors, r)
    requires |Trace(st, Levels(value), Root)| == |Levels(value)|
    ensures r == Outcome(Some(Trace(st, Levels(value), Root)[|Levels(value)| - 1]), errors)
  {
  }

  /**
   A path that breaks off at a level whose name exists but not under the expected
   parent records one mismatch naming that parent: the root word at the first level,
   otherwise the term resolved for the previous level.
   */
  lemma MismatchNamesParent(st: Store, taxonomy: string, value: string, errors: Ledger)
    requires Valid(st) && IdsWellFormed(st.terms)
    ensures var levels := Levels(value);
            var chain := Trace(st, levels, Root);
            var k := |chain|;
            var parentName := if k == 0 then RootName else chain[k - 1].name;
            && !IsEmptyValue(value) && Contains(value, Separator)
            && k < |levels| && ResolveLevel(st, levels[k], ParentAfter(Root, chain)).Misplaced?
            ==> ProcessTerm(st, taxonomy, value, errors) ==
                  Outcome(None, AddError(errors, MismatchKind, MismatchMessage(taxonomy, levels[k], parentName, value)))
  {
    var chain := Trace(st, Levels(value), Root);
    ParentNameAlongPath(st.terms, chain);
  }
}
