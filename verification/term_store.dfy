/**
 The terms of one taxonomy as the processor sees them through WordPress's three
 lookups. The catalog is an immutable sequence in the order the catalog returns
 terms; `get_terms` is an order-preserving filter over it, `get_term` fetches by
 id, and the lookup by name is a picker that returns some term with the
 name, or none, with its tie-break left open.
 */
module TermStore {
  import opened Options

  /** The id a parent field holds for a top-level term. */
  const Root: nat := 0

  datatype Term = Term(id: nat, name: string, parent: nat)

  /** The taxonomy's terms, plus the name lookup whose tie-break is not fixed. */
  datatype Store = Store(terms: seq<Term>, byName: string -> Option<Term>)

  /** Some term in `terms` is called `name`. */
  ghost predicate HasName(terms: seq<Term>, name: string) {
    exists t :: t in terms && t.name == name
  }

  /** `pick` is a possible answer of `get_term_by` for `name` over `terms`. */
  ghost predicate IsNameLookup(terms: seq<Term>, name: string, pick: Option<Term>) {
    match pick
    case None => !HasName(terms, name)
    case Some(t) => t in terms && t.name == name
  }

  /** The store's picker behaves as a name lookup for every name. */
  ghost predicate Valid(st: Store) {
    forall name :: IsNameLookup(st.terms, name, st.byName(name))
  }

  /** `get_terms` filtered by name: the terms with that name, in catalog order. */
  function TermsNamed(terms: seq<Term>, name: string): (r: seq<Term>)
    ensures |r| <= |terms|
    ensures forall t :: t in r <==> t in terms && t.name == name
    ensures |r| == 0 <==> !HasName(terms, name)
  {
    if |terms| == 0 then []
    else if terms[0].name == name then [terms[0]] + TermsNamed(terms[1..], name)
    else TermsNamed(terms[1..], name)
  }

  /** `get_terms` filtered by name and parent: the children of `parent` with that name, in catalog order. */
  function ChildrenNamed(terms: seq<Term>, name: string, parent: nat): (r: seq<Term>)
    ensures |r| <= |terms|
    ensures forall t :: t in r <==> t in terms && t.name == name && t.parent == parent
  {
    if |terms| == 0 then []
    else if terms[0].name == name && terms[0].parent == parent then [terms[0]] + ChildrenNamed(terms[1..], name, parent)
    else ChildrenNamed(terms[1..], name, parent)
  }

  /** The name query keeps every stored copy of each matching term and nothing else, so its length counts the matches. */
  lemma {:induction false} TermsNamedCounts(terms: seq<Term>, name: string, t: Term)
    ensures multiset(TermsNamed(terms, name))[t] == if t.name == name then multiset(terms)[t] else 0
  {
    if |terms| > 0 {
      TermsNamedCounts(terms[1..], name, t);
      assert terms == [terms[0]] + terms[1..];
    }
  }

  /** The name query starts with the earliest stored term carrying the name. */
  lemma {:induction false} TermsNamedStartsWithFirst(terms: seq<Term>, name: string, i: nat)
    requires i < |terms| && terms[i].name == name
    requires forall j :: 0 <= j < i ==> terms[j].name != name
    ensures |TermsNamed(terms, name)| > 0 && TermsNamed(terms, name)[0] == terms[i]
  {
    if i > 0 {
      TermsNamedStartsWithFirst(terms[1..], name, i - 1);
    }
  }

  /** The parent-filtered query keeps every stored copy of each matching child and nothing else. */
  lemma {:induction false} ChildrenNamedCounts(terms: seq<Term>, name: string, parent: nat, t: Term)
    ensures multiset(ChildrenNamed(terms, name, parent))[t] ==
            if t.name == name && t.parent == parent then multiset(terms)[t] else 0
  {
    if |terms| > 0 {
      ChildrenNamedCounts(terms[1..], name, parent, t);
      assert terms == [terms[0]] + terms[1..];
    }
  }

  /** The parent-filtered query starts with the earliest stored child of `parent` carrying the name. */
  lemma {:induction false} ChildrenNamedStartsWithFirst(terms: seq<Term>, name: string, parent: nat, i: nat)
    requires i < |terms| && terms[i].name == name && terms[i].parent == parent
    requires forall j :: 0 <= j < i ==> !(terms[j].name == name && terms[j].parent == parent)
    ensures |ChildrenNamed(terms, name, parent)| > 0 && ChildrenNamed(terms, name, parent)[0] == terms[i]
  {
    if i > 0 {
      ChildrenNamedStartsWithFirst(terms[1..], name, parent, i - 1);
    }
  }

  /** The name query distributes over concatenation, so it keeps the catalog order of every match. */
  lemma {:induction false} TermsNamedAppend(a: seq<Term>, b: seq<Term>, name: string)
    ensures TermsNamed(a + b, name) == TermsNamed(a, name) + TermsNamed(b, name)
  {
    if |a| == 0 {
      assert a + b == b;
    } else {
      assert (a + b)[0] == a[0] && (a + b)[1..] == a[1..] + b;
      TermsNamedAppend(a[1..], b, name);
    }
  }

  /** The parent-filtered query distributes over concatenation, so it keeps the catalog order of every match. */
  lemma {:induction false} ChildrenNamedAppend(a: seq<Term>, b: seq<Term>, name: string, parent: nat)
    ensures ChildrenNamed(a + b, name, parent) == ChildrenNamed(a, name, parent) + ChildrenNamed(b, name, parent)
  {
    if |a| == 0 {
      assert a + b == b;
    } else {
      assert (a + b)[0] == a[0] && (a + b)[1..] == a[1..] + b;
      ChildrenNamedAppend(a[1..], b, name, parent);
    }
  }

  /** The parent filter only narrows the name filter and keeps its order. */
  lemma {:induction false} ChildrenAreNamedSubsequence(terms: seq<Term>, name: string, parent: nat)
    ensures ChildrenNamed(terms, name, parent) == ChildrenNamed(TermsNamed(terms, name), name, parent)
  {
    if |terms| > 0 {
      ChildrenAreNamedSubsequence(terms[1..], name, parent);
      if terms[0].name == name {
        assert TermsNamed(terms, name)[1..] == TermsNamed(terms[1..], name);
      }
    }
  }

  /** `get_term(id)`: the term with that id, or none. */
  function TermById(terms: seq<Term>, id: nat): (r: Option<Term>)
    ensures r.Some? ==> r.value in terms && r.value.id == id
    ensures r.None? <==> forall t :: t in terms ==> t.id != id
  {
    if |terms| == 0 then None
    else if terms[0].id == id then Some(terms[0])
    else TermById(terms[1..], id)
  }

  /** The ids of `ts`, in order. */
  function Ids(ts: seq<Term>): (r: seq<nat>)
    ensures |r| == |ts|
    ensures forall i :: 0 <= i < |ts| ==> r[i] == ts[i].id
  {
    if |ts| == 0 then [] else [ts[0].id] + Ids(ts[1..])
  }

  /** The first term with the name: one tie-break a real catalog might use. */
  function FirstNamed(terms: seq<Term>, name: string): Option<Term>
  {
    var named := TermsNamed(terms, name);
    if |named| == 0 then None else Some(named[0])
  }

  /** Picking the first named term is a valid name lookup. */
  lemma FirstNamedIsLookup(terms: seq<Term>)
    ensures Valid(Store(terms, name => FirstNamed(terms, name)))
  {
    forall name
      ensures IsNameLookup(terms, name, FirstNamed(terms, name))
    {
      var named := TermsNamed(terms, name);
      if |named| > 0 {
        assert named[0] in named;
      }
    }
  }

  /** Ids are positive (so never the root marker) and identify one term each, as WordPress guarantees. */
  ghost predicate IdsWellFormed(terms: seq<Term>) {
    && (forall t :: t in terms ==> t.id != Root)
    && (forall t, u :: t in terms && u in terms && t.id == u.id ==> t == u)
  }

  /**
   No two terms with the same name share a parent. The processor assumes this
   without checking it, and WordPress does not enforce it in every path (an
   explicit distinct slug or a rename can create such a pair).
   */
  ghost predicate SiblingNamesUnique(terms: seq<Term>) {
    forall t, u :: t in terms && u in terms && t.name == u.name && t.parent == u.parent ==> t == u
  }

  /** With unique ids, fetching a stored term's id gives that term back. */
  lemma TermByIdFindsStored(terms: seq<Term>, t: Term)
    requires IdsWellFormed(terms) && t in terms
    ensures TermById(terms, t.id) == Some(t)
  {
  }
}
