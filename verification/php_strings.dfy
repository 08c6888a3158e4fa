/**
 The PHP string built-ins the term processor relies on, modelled on `seq<char>`:
 `empty` on a string, `strpos`, `explode`, `implode`, `trim` and the decimal
 rendering of an integer id. Each comes with the property that makes it the
 inverse or the characterisation of the others.
 */
module PhpStrings {
  import opened Options

  /** PHP `empty()` applied to a string: true for "" and for "0". */
  predicate IsEmptyValue(s: string) {
    s == "" || s == "0"
  }

  /** `sep` occurs in `s` starting at index `i`. */
  predicate OccursAt(s: string, sep: string, i: nat) {
    i + |sep| <= |s| && s[i..i + |sep|] == sep
  }

  /** `sep` occurs somewhere in `s`. */
  ghost predicate Contains(s: string, sep: string) {
    exists i: nat :: OccursAt(s, sep, i)
  }

  /** The leftmost occurrence of `sep` in `s` at or after `k` (PHP `strpos` with an offset). */
  function IndexFrom(s: string, sep: string, k: nat): (r: Option<nat>)
    requires |sep| > 0
    ensures r.Some? ==> k <= r.value && OccursAt(s, sep, r.value)
    ensures r.Some? ==> forall j: nat :: k <= j < r.value ==> !OccursAt(s, sep, j)
    ensures r.None? ==> forall j: nat :: k <= j ==> !OccursAt(s, sep, j)
    decreases |s| - k
  {
    if k + |sep| > |s| then None
    else if s[k..k + |sep|] == sep then Some(k)
    else IndexFrom(s, sep, k + 1)
  }

  /** PHP `strpos(s, sep)`: the leftmost occurrence, or none (`false`). */
  function IndexOf(s: string, sep: string): (r: Option<nat>)
    requires |sep| > 0
    ensures r.None? <==> !Contains(s, sep)
    ensures r.Some? ==> OccursAt(s, sep, r.value)
    ensures r.Some? ==> forall j: nat :: j < r.value ==> !OccursAt(s, sep, j)
  {
    IndexFrom(s, sep, 0)
  }

  /** PHP `explode(sep, s)`: the pieces between the non-overlapping occurrences of `sep`, left to right. */
  function Split(s: string, sep: string): (parts: seq<string>)
    requires |sep| > 0
    ensures |parts| >= 1
    decreases |s|
  {
    match IndexOf(s, sep)
    case None => [s]
    case Some(i) => [s[..i]] + Split(s[i + |sep|..], sep)
  }

  /** PHP `implode(sep, parts)`: the pieces with `sep` between consecutive ones. */
  function Join(parts: seq<string>, sep: string): (r: string)
    ensures |parts| > 0 ==> parts[0] <= r
    ensures |parts| > 1 ==> parts[0] + sep <= r
  {
    if |parts| == 0 then ""
    else if |parts| == 1 then parts[0]
    else parts[0] + sep + Join(parts[1..], sep)
  }

  /** Joining the pieces of a split gives back the original string. */
  lemma {:induction false} JoinSplit(s: string, sep: string)
    requires |sep| > 0
    ensures Join(Split(s, sep), sep) == s
    decreases |s|
  {
    match IndexOf(s, sep)
    case None =>
    case Some(i) =>
      var rest := s[i + |sep|..];
      var parts := Split(s, sep);
      var tail := Split(rest, sep);
      assert parts == [s[..i]] + tail;
      assert |parts| > 1 && parts[0] == s[..i] && parts[1..] == tail;
      assert Join(parts, sep) == s[..i] + sep + Join(tail, sep);
      JoinSplit(rest, sep);
      assert s == s[..i] + s[i..i + |sep|] + rest;
  }

  /** No piece produced by a split contains the separator. */
  lemma {:induction false} SplitPiecesAreFree(s: string, sep: string)
    requires |sep| > 0
    ensures forall p :: p in Split(s, sep) ==> !Contains(p, sep)
    decreases |s|
  {
    match IndexOf(s, sep)
    case None =>
    case Some(i) =>
      var rest := s[i + |sep|..];
      SplitPiecesAreFree(rest, sep);
      var head := s[..i];
      forall j: nat | OccursAt(head, sep, j)
        ensures false
      {
        assert s[j..j + |sep|] == head[j..j + |sep|];
        assert OccursAt(s, sep, j);
      }
      assert Split(s, sep) == [head] + Split(rest, sep);
  }

  /** A split yields at least two pieces exactly when the separator occurs. */
  lemma SplitHasManyPieces(s: string, sep: string)
    requires |sep| > 0
    ensures |Split(s, sep)| >= 2 <==> Contains(s, sep)
  {
    var parts := Split(s, sep);
    match IndexOf(s, sep)
    case None =>
      assert parts == [s];
    case Some(i) =>
      assert parts == [s[..i]] + Split(s[i + |sep|..], sep);
      assert OccursAt(s, sep, i);
  }

  /** An occurrence that ends inside a prefix of `s` is an occurrence in that prefix. */
  lemma OccurrenceInPrefix(s: string, sep: string, q: string, j: nat)
    requires q <= s && OccursAt(s, sep, j) && j + |sep| <= |q|
    ensures OccursAt(q, sep, j)
  {
    assert q[j..j + |sep|] == s[j..j + |sep|];
  }

  /**
   `parts` is what `explode` must return for `s`: the pieces join back to `s`, the
   last holds no separator, and every other piece ends at the leftmost separator
   after it starts (no separator begins inside the piece, even one running into the cut).
   */
  ghost predicate IsExplode(s: string, sep: string, parts: seq<string>)
    requires |sep| > 0
  {
    |parts| >= 1 && Join(parts, sep) == s && CutsLeftmost(sep, parts)
  }

  /** The piece conditions of `IsExplode`, without the join. */
  ghost predicate CutsLeftmost(sep: string, parts: seq<string>)
    requires |sep| > 0 && |parts| >= 1
  {
    && !Contains(parts[|parts| - 1], sep)
    && (forall k :: 0 <= k < |parts| - 1 ==> !Contains(parts[k] + sep[..|sep| - 1], sep))
  }

  /** Every piece but the last ends at the leftmost separator, so overlapping separators are cut left to right. */
  lemma {:induction false} SplitCutsLeftmost(s: string, sep: string)
    requires |sep| > 0
    ensures forall k :: 0 <= k < |Split(s, sep)| - 1 ==> !Contains(Split(s, sep)[k] + sep[..|sep| - 1], sep)
    decreases |s|
  {
    match IndexOf(s, sep)
    case None =>
    case Some(i) =>
      var rest := s[i + |sep|..];
      var head := s[..i];
      SplitCutsLeftmost(rest, sep);
      var q := head + sep[..|sep| - 1];
      assert q == s[..i + |sep| - 1] by {
        assert s[i..i + |sep|] == sep;
      }
      forall j: nat | OccursAt(q, sep, j)
        ensures false
      {
        assert s[j..j + |sep|] == q[j..j + |sep|];
        assert OccursAt(s, sep, j);
      }
      assert Split(s, sep) == [head] + Split(rest, sep);
  }

  /** `explode` is the one split that `IsExplode` admits. */
  lemma SplitIsExplode(s: string, sep: string)
    requires |sep| > 0
    ensures IsExplode(s, sep, Split(s, sep))
  {
    var parts := Split(s, sep);
    JoinSplit(s, sep);
    SplitPiecesAreFree(s, sep);
    SplitCutsLeftmost(s, sep);
    assert parts[|parts| - 1] in parts;
  }

  /** When no separator begins before `head` ends, `explode` cuts `head + sep + tail` right after `head`. */
  lemma SplitAtFirstCut(head: string, sep: string, tail: string)
    requires |sep| > 0 && !Contains(head + sep[..|sep| - 1], sep)
    ensures Split(head + sep + tail, sep) == [head] + Split(tail, sep)
  {
    var s := head + sep + tail;
    assert OccursAt(s, sep, |head|) by {
      assert s[|head|..|head| + |sep|] == sep;
    }
    var q := head + sep[..|sep| - 1];
    assert q <= s;
    forall j: nat | j < |head|
      ensures !OccursAt(s, sep, j)
    {
      if OccursAt(s, sep, j) {
        OccurrenceInPrefix(s, sep, q, j);
      }
    }
    assert IndexOf(s, sep) == Some(|head|);
    assert s[|head| + |sep|..] == tail;
    assert s[..|head|] == head;
  }

  /** Dropping the first piece keeps the piece conditions. */
  lemma ExplodeTail(sep: string, parts: seq<string>)
    requires |sep| > 0 && |parts| > 1 && CutsLeftmost(sep, parts)
    ensures CutsLeftmost(sep, parts[1..])
  {
    var rest := parts[1..];
    assert rest[|rest| - 1] == parts[|parts| - 1];
    forall k | 0 <= k < |rest| - 1
      ensures !Contains(rest[k] + sep[..|sep| - 1], sep)
    {
      assert rest[k] == parts[k + 1];
    }
  }

  /** Any split satisfying `IsExplode` is the one `explode` returns. */
  lemma {:induction false} ExplodeIsSplit(s: string, sep: string, parts: seq<string>)
    requires |sep| > 0 && IsExplode(s, sep, parts)
    ensures parts == Split(s, sep)
    decreases |parts|
  {
    if |parts| == 1 {
      assert s == parts[0];
    } else {
      var tail := Join(parts[1..], sep);
      assert s == parts[0] + sep + tail;
      SplitAtFirstCut(parts[0], sep, tail);
      ExplodeTail(sep, parts);
      ExplodeIsSplit(tail, sep, parts[1..]);
    }
  }

  /** `explode`'s result is characterised exactly: a split is `explode`'s iff it satisfies `IsExplode`. */
  lemma SplitCharacterised(s: string, sep: string, parts: seq<string>)
    requires |sep| > 0
    ensures IsExplode(s, sep, parts) <==> parts == Split(s, sep)
  {
    SplitIsExplode(s, sep);
    if IsExplode(s, sep, parts) {
      ExplodeIsSplit(s, sep, parts);
    }
  }

  /** Every string occurs in itself. */
  lemma ContainsSelf(x: string)
    ensures Contains(x, x)
  {
    assert x[0..|x|] == x;
    assert OccursAt(x, x, 0);
  }

  /** An occurrence survives adding text on either side. */
  lemma ContainsExtend(a: string, b: string, x: string)
    ensures Contains(a, x) ==> Contains(a + b, x) && Contains(b + a, x)
  {
    if Contains(a, x) {
      var i: nat :| OccursAt(a, x, i);
      assert (a + b)[i..i + |x|] == a[i..i + |x|];
      assert OccursAt(a + b, x, i);
      assert (b + a)[|b| + i..|b| + i + |x|] == a[i..i + |x|];
      assert OccursAt(b + a, x, |b| + i);
    }
  }

  /** An occurrence of `sep` starts with the separator's first character. */
  lemma OccurrenceStartsWithSep(s: string, sep: string, j: nat)
    requires |sep| > 0 && j < |s|
    ensures OccursAt(s, sep, j) ==> s[j] == sep[0]
  {
    if OccursAt(s, sep, j) {
      assert s[j..j + |sep|][0] == s[j];
    }
  }

  /** Splitting a join gives the pieces back, provided no piece holds the separator's first character. */
  lemma {:induction false} SplitJoin(parts: seq<string>, sep: string)
    requires |sep| > 0 && |parts| >= 1
    requires forall p :: p in parts ==> sep[0] !in p
    ensures Split(Join(parts, sep), sep) == parts
    decreases |parts|
  {
    var s := Join(parts, sep);
    var head := parts[0];
    if |parts| == 1 {
      forall j: nat
        ensures !OccursAt(s, sep, j)
      {
        if j < |s| {
          assert s[j] in head;
          OccurrenceStartsWithSep(s, sep, j);
        }
      }
      assert !Contains(s, sep);
    } else {
      var tail := Join(parts[1..], sep);
      assert s == head + sep + tail;
      assert OccursAt(s, sep, |head|) by {
        assert s[|head|..|head| + |sep|] == sep;
      }
      forall j: nat | j < |head|
        ensures !OccursAt(s, sep, j)
      {
        assert s[j] == head[j] && head[j] in head;
        OccurrenceStartsWithSep(s, sep, j);
      }
      assert Contains(s, sep);
      assert IndexOf(s, sep) == Some(|head|);
      assert s[|head| + |sep|..] == tail;
      assert s[..|head|] == head;
      SplitJoin(parts[1..], sep);
      assert Split(s, sep) == [head] + parts[1..];
    }
  }

  /** The characters PHP `trim` strips by default: space, tab, newline, carriage return, NUL and vertical tab. */
  predicate IsTrimmable(c: char) {
    c == ' ' || c == '\t' || c == '\n' || c == '\r' || c == '\0' || c == '\U{000B}'
  }

  /** Drops the leading trimmable characters. */
  function TrimLeft(s: string): (r: string)
    ensures |r| <= |s| && r == s[|s| - |r|..]
    ensures forall j :: 0 <= j < |s| - |r| ==> IsTrimmable(s[j])
    ensures |r| > 0 ==> !IsTrimmable(r[0])
  {
    if |s| > 0 && IsTrimmable(s[0]) then TrimLeft(s[1..]) else s
  }

  /** Drops the trailing trimmable characters. */
  function TrimRight(s: string): (r: string)
    ensures |r| <= |s| && r == s[..|r|]
    ensures forall j :: |r| <= j < |s| ==> IsTrimmable(s[j])
    ensures |r| > 0 ==> !IsTrimmable(r[|r| - 1])
  {
    if |s| > 0 && IsTrimmable(s[|s| - 1]) then TrimRight(s[..|s| - 1]) else s
  }

  /** `r` sits in `s` at index `i` with only trimmable characters around it. */
  ghost predicate TrimmedAt(s: string, r: string, i: nat) {
    && i + |r| <= |s|
    && r == s[i..i + |r|]
    && (forall j :: 0 <= j < i ==> IsTrimmable(s[j]))
    && (forall j :: i + |r| <= j < |s| ==> IsTrimmable(s[j]))
  }

  /** PHP `trim`: the longest infix of `s` that neither starts nor ends with a trimmable character. */
  function Trim(s: string): (r: string)
    ensures exists i: nat :: TrimmedAt(s, r, i)
    ensures |r| > 0 ==> !IsTrimmable(r[0]) && !IsTrimmable(r[|r| - 1])
  {
    var r := TrimRight(TrimLeft(s));
    TrimInfix(s);
    r
  }

  /** `TrimRight(TrimLeft(s))` sits in `s` after the leading trimmable characters. */
  lemma TrimInfix(s: string)
    ensures TrimmedAt(s, TrimRight(TrimLeft(s)), |s| - |TrimLeft(s)|)
  {
    TrimmedAtFromParts(s, TrimLeft(s), TrimRight(TrimLeft(s)));
  }

  /** `r`, a prefix of the suffix `l` of `s`, sits in `s` between trimmable characters. */
  lemma TrimmedAtFromParts(s: string, l: string, r: string)
    requires |l| <= |s| && l == s[|s| - |l|..]
    requires forall j :: 0 <= j < |s| - |l| ==> IsTrimmable(s[j])
    requires |r| <= |l| && r == l[..|r|]
    requires forall j :: |r| <= j < |l| ==> IsTrimmable(l[j])
    ensures TrimmedAt(s, r, |s| - |l|)
  {
    var i := |s| - |l|;
    assert r == s[i..i + |r|];
    forall j | i + |r| <= j < |s|
      ensures IsTrimmable(s[j])
    {
      assert s[j] == l[j - i];
    }
  }

  /** `s` neither starts nor ends with a trimmable character. */
  predicate HasTrimmedEdges(s: string) {
    |s| == 0 || (!IsTrimmable(s[0]) && !IsTrimmable(s[|s| - 1]))
  }

  /** A trimmed string neither starts nor ends with a trimmable character. */
  lemma TrimEdges(s: string)
    ensures HasTrimmedEdges(Trim(s))
  {
  }

  /** Trimming a trimmed string changes nothing. */
  lemma TrimIdempotent(s: string)
    ensures Trim(Trim(s)) == Trim(s)
  {
    var t := Trim(s);
    assert TrimLeft(t) == t;
    assert TrimRight(t) == t;
  }

  /** Trims every piece, keeping their order. */
  function TrimAll(parts: seq<string>): (r: seq<string>)
    ensures |r| == |parts|
    ensures forall i :: 0 <= i < |parts| ==> r[i] == Trim(parts[i])
  {
    if |parts| == 0 then [] else [Trim(parts[0])] + TrimAll(parts[1..])
  }

  /** `c` is one of the ASCII digits 0 to 9. */
  predicate IsDigit(c: char) {
    '0' <= c <= '9'
  }

  /** The ASCII digit for a value below ten. */
  function DigitChar(d: nat): (c: char)
    requires d < 10
    ensures IsDigit(c) && c as int - '0' as int == d
  {
    "0123456789"[d]
  }

  /** The value of a decimal digit; other characters read as zero. */
  function DigitValue(c: char): nat {
    if IsDigit(c) then c as int - '0' as int else 0
  }

  /** PHP's conversion of a non-negative integer to its decimal string: digits only, with no leading zero. */
  function NatToString(n: nat): (r: string)
    ensures |r| > 0
    ensures forall i :: 0 <= i < |r| ==> IsDigit(r[i])
    ensures r[0] == '0' <==> n == 0
    ensures |r| > 1 ==> r[0] != '0'
    decreases n
  {
    if n < 10 then [DigitChar(n)] else NatToString(n / 10) + [DigitChar(n % 10)]
  }

  /** Reads a string of decimal digits back as a number. */
  function ParseNat(s: string): nat
  {
    if |s| == 0 then 0 else ParseNat(s[..|s| - 1]) * 10 + DigitValue(s[|s| - 1])
  }

  /** Rendering a number in decimal loses nothing. */
  lemma {:induction false} ParseNatToString(n: nat)
    ensures ParseNat(NatToString(n)) == n
    decreases n
  {
    var s := NatToString(n);
    if n < 10 {
      assert s[..0] == [];
    } else {
      ParseNatToString(n / 10);
      assert s[..|s| - 1] == NatToString(n / 10);
    }
  }
}
