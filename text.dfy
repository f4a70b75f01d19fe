/**
 The string operations the server borrows from Python: `str.find` with a
 non-empty separator, `str.split(sep)` (split on every occurrence, keeping
 empty pieces) and `sep.join(pieces)`. Strings and byte strings are both
 `seq<char>`.
 */
module Text {

  datatype Option<+T> = None | Some(value: T)

  /** `sep` occurs in `s` starting at index `k`. */
  predicate OccursAt(s: string, sep: string, k: int)
  {
    0 <= k && k + |sep| <= |s| && s[k..k + |sep|] == sep
  }

  /** `sep` occurs somewhere in `s` (Python's `sep in s`). */
  predicate Contains(s: string, sep: string)
  {
    exists k :: 0 <= k <= |s| && OccursAt(s, sep, k)
  }

  /** The first index at or after `from` where `sep` occurs (Python's `s.find(sep, from)`). */
  function FindFrom(s: string, sep: string, from: nat): (r: Option<nat>)
    requires |sep| > 0 && from <= |s|
    decreases |s| - from
    ensures r.Some? ==> from <= r.value && OccursAt(s, sep, r.value)
    ensures r.Some? ==> forall k :: from <= k < r.value ==> !OccursAt(s, sep, k)
    ensures r.None? ==> forall k :: from <= k ==> !OccursAt(s, sep, k)
  {
    if from + |sep| > |s| then None
    else if s[from..from + |sep|] == sep then Some(from)
    else FindFrom(s, sep, from + 1)
  }

  /** The first occurrence of `sep` in `s`, if any. */
  function Find(s: string, sep: string): (r: Option<nat>)
    requires |sep| > 0
    ensures r.Some? ==> OccursAt(s, sep, r.value) && forall k :: 0 <= k < r.value ==> !OccursAt(s, sep, k)
    ensures r.None? ==> forall k :: 0 <= k ==> !OccursAt(s, sep, k)
  {
    FindFrom(s, sep, 0)
  }

  /** `Find` succeeds exactly when the separator occurs. */
  lemma FindIffContains(s: string, sep: string)
    requires |sep| > 0
    ensures Find(s, sep).Some? <==> Contains(s, sep)
  {
    if Find(s, sep).Some? {
      assert OccursAt(s, sep, Find(s, sep).value);
    }
  }

  /** An occurrence with none before it is the one `Find` returns. */
  lemma FindIs(s: string, sep: string, i: nat)
    requires |sep| > 0 && OccursAt(s, sep, i)
    requires forall k :: 0 <= k < i ==> !OccursAt(s, sep, k)
    ensures Find(s, sep) == Some(i)
  {
  }

  /** A prefix that ends before the first occurrence of `sep` does not contain it. */
  lemma NoneBefore(s: string, sep: string, i: nat)
    requires |sep| > 0 && i <= |s|
    requires forall k :: 0 <= k < i ==> !OccursAt(s, sep, k)
    ensures !Contains(s[..i], sep)
  {
    forall k | 0 <= k <= i
      ensures !OccursAt(s[..i], sep, k)
    {
      if k + |sep| <= i {
        assert s[..i][k..k + |sep|] == s[k..k + |sep|];
        assert !OccursAt(s, sep, k);
      }
    }
  }

  /** A string without the first character of `sep` cannot contain `sep`. */
  lemma NoLeadNoOccurrence(s: string, sep: string)
    requires |sep| > 0 && sep[0] !in s
    ensures !Contains(s, sep)
  {
    forall k | 0 <= k <= |s|
      ensures !OccursAt(s, sep, k)
    {
      if k + |sep| <= |s| {
        assert s[k..k + |sep|][0] == s[k];
      }
    }
  }

  /** For a one-character separator, containment is membership. */
  lemma ContainsChar(s: string, c: char)
    ensures Contains(s, [c]) <==> c in s
  {
    if c in s {
      var k :| 0 <= k < |s| && s[k] == c;
      assert s[k..k + 1] == [c];
      assert OccursAt(s, [c], k);
    } else {
      NoLeadNoOccurrence(s, [c]);
    }
  }

  /** Python's `s.split(sep)`: the pieces between successive non-overlapping
      occurrences of `sep`, found left to right; never an empty list. */
  function Split(s: string, sep: string): (pieces: seq<string>)
    requires |sep| > 0
    decreases |s|
    ensures |pieces| >= 1
  {
    match Find(s, sep)
    case None => [s]
    case Some(i) => [s[..i]] + Split(s[i + |sep|..], sep)
  }

  /** No piece of a split contains the separator. */
  lemma {:induction false} SplitPiecesFree(s: string, sep: string)
    requires |sep| > 0
    ensures forall t :: t in Split(s, sep) ==> !Contains(t, sep)
    decreases |s|
  {
    match Find(s, sep)
    case None =>
    case Some(i) =>
      NoneBefore(s, sep, i);
      SplitPiecesFree(s[i + |sep|..], sep);
  }

  /** Python's `sep.join(pieces)`. */
  function Join(pieces: seq<string>, sep: string): string
  {
    if |pieces| == 0 then []
    else if |pieces| == 1 then pieces[0]
    else pieces[0] + sep + Join(pieces[1..], sep)
  }

  /** Joining a leading piece onto a non-empty list puts one separator between. */
  lemma JoinCons(t: string, tail: seq<string>, sep: string)
    requires |tail| > 0
    ensures Join([t] + tail, sep) == t + sep + Join(tail, sep)
  {
    assert ([t] + tail)[1..] == tail;
  }

  /** Splitting yields one piece exactly when the separator does not occur. */
  lemma SplitSingleIff(s: string, sep: string)
    requires |sep| > 0
    ensures |Split(s, sep)| == 1 <==> !Contains(s, sep)
    ensures !Contains(s, sep) ==> Split(s, sep) == [s]
  {
    FindIffContains(s, sep);
    match Find(s, sep)
    case None =>
    case Some(i) =>
      assert |Split(s[i + |sep|..], sep)| >= 1;
  }

  /** Joining the pieces of a split rebuilds the input exactly. */
  lemma {:induction false} JoinSplit(s: string, sep: string)
    requires |sep| > 0
    ensures Join(Split(s, sep), sep) == s
    decreases |s|
  {
    match Find(s, sep)
    case None =>
    case Some(i) =>
      var rest := s[i + |sep|..];
      var tail := Split(rest, sep);
      assert Split(s, sep) == [s[..i]] + tail;
      JoinSplit(rest, sep);
      JoinCons(s[..i], tail, sep);
      assert s[i..i + |sep|] == sep;
      assert s == s[..i] + s[i..i + |sep|] + rest;
  }

  /** Splitting a piece free of `sep[0]`, followed by `sep`, peels that piece off. */
  lemma SplitCons(t: string, sep: string, rest: string)
    requires |sep| > 0 && sep[0] !in t
    ensures Split(t + sep + rest, sep) == [t] + Split(rest, sep)
  {
    var s := t + sep + rest;
    assert s[|t|..|t| + |sep|] == sep;
    forall k | 0 <= k < |t|
      ensures !OccursAt(s, sep, k)
    {
      if k + |sep| <= |s| {
        assert s[k..k + |sep|][0] == t[k];
      }
    }
    FindIs(s, sep, |t|);
    assert s[..|t|] == t;
    assert s[|t| + |sep|..] == rest;
  }

  /** Splitting a string free of `sep[0]` leaves it whole. */
  lemma SplitWhole(t: string, sep: string)
    requires |sep| > 0 && sep[0] !in t
    ensures Split(t, sep) == [t]
  {
    NoLeadNoOccurrence(t, sep);
    SplitSingleIff(t, sep);
  }

  /** Splitting a join of pieces free of `sep[0]` gives the pieces back. */
  lemma {:induction false} SplitJoin(pieces: seq<string>, sep: string)
    requires |sep| > 0 && |pieces| > 0
    requires forall t :: t in pieces ==> sep[0] !in t
    ensures Split(Join(pieces, sep), sep) == pieces
    decreases |pieces|
  {
    var head := pieces[0];
    assert sep[0] !in head;
    if |pieces| == 1 {
      SplitWhole(head, sep);
      assert pieces == [head];
    } else {
      var tail := pieces[1..];
      forall t | t in tail
        ensures sep[0] !in t
      {
        assert t in pieces;
      }
      SplitJoin(tail, sep);
      assert Join(pieces, sep) == head + sep + Join(tail, sep);
      SplitCons(head, sep, Join(tail, sep));
      assert pieces == [head] + tail;
    }
  }

  /** No piece of a split on a single character holds that character. */
  lemma SplitOnCharPieces(s: string, c: char)
    ensures forall t :: t in Split(s, [c]) ==> c !in t
  {
    SplitPiecesFree(s, [c]);
    forall t | t in Split(s, [c])
      ensures c !in t
    {
      ContainsChar(t, c);
    }
  }
}
