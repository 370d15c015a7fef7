/** Java string behaviour the control-channel handler relies on: `String.split` with a
    literal separator, `String.trim`, `String.contains`, and comma joining. */
module JavaStrings {

  datatype Option<T> = None | Some(value: T)

  /** `sep` occurs in `s` starting at index `k`. */
  predicate OccursAt(s: string, sep: string, k: nat)
  {
    k + |sep| <= |s| && s[k..k + |sep|] == sep
  }

  /** Index of the first occurrence of `sep` in `s`, if any. */
  function Find(s: string, sep: string): (r: Option<nat>)
    requires |sep| > 0
    ensures r.Some? ==> OccursAt(s, sep, r.value)
    ensures r.Some? ==> forall k :: 0 <= k < r.value ==> !OccursAt(s, sep, k)
    ensures r.None? ==> forall k :: 0 <= k ==> !OccursAt(s, sep, k)
    decreases |s|
  {
    if |s| < |sep| then None
    else if s[..|sep|] == sep then Some(0)
    else
      var tail := Find(s[1..], sep);
      assert forall k :: 1 <= k ==> OccursAt(s, sep, k) == OccursAt(s[1..], sep, k - 1);
      match tail
      case None => None
      case Some(i) => Some(i + 1)
  }

  /** `String.contains` with a literal argument. */
  predicate Contains(s: string, sep: string): (b: bool)
    requires |sep| > 0
    ensures b <==> exists k: nat :: OccursAt(s, sep, k)
  {
    Find(s, sep).Some?
  }

  /** Literal split that keeps every piece, empty ones included. */
  function SplitAll(s: string, sep: string): (parts: seq<string>)
    requires |sep| > 0
    ensures |parts| >= 1
    decreases |s|
  {
    match Find(s, sep)
    case None => [s]
    case Some(i) => [s[..i]] + SplitAll(s[i + |sep|..], sep)
  }

  /** Removes empty strings from the end of `parts`. */
  function DropTrailingEmpty(parts: seq<string>): (r: seq<string>)
    ensures |r| <= |parts| && r == parts[..|r|]
    ensures |r| > 0 ==> r[|r| - 1] != ""
    ensures forall k :: |r| <= k < |parts| ==> parts[k] == ""
    ensures forall p :: p in r ==> p in parts
  {
    if |parts| > 0 && parts[|parts| - 1] == "" then DropTrailingEmpty(parts[..|parts| - 1])
    else parts
  }

  /** Java's `s.split(sep)` for a separator taken literally: with no occurrence the
      result is `[s]` (even for an empty `s`); otherwise the pieces between occurrences,
      with trailing empty strings removed. */
  function JavaSplit(s: string, sep: string): (parts: seq<string>)
    requires |sep| > 0
    ensures !Contains(s, sep) ==> parts == [s]
    ensures Contains(s, sep) ==> |parts| <= |SplitAll(s, sep)| && parts == SplitAll(s, sep)[..|parts|]
    ensures Contains(s, sep) ==> forall k :: |parts| <= k < |SplitAll(s, sep)| ==> SplitAll(s, sep)[k] == ""
    ensures Contains(s, sep) && |parts| > 0 ==> parts[|parts| - 1] != ""
  {
    if Find(s, sep).None? then [s] else DropTrailingEmpty(SplitAll(s, sep))
  }

  /** The pieces joined with `sep` between neighbours. */
  function JoinWith(parts: seq<string>, sep: string): string
  {
    if |parts| == 0 then ""
    else if |parts| == 1 then parts[0]
    else parts[0] + sep + JoinWith(parts[1..], sep)
  }

  /** Number of leading characters `<= ' '`, the ones `String.trim` strips at the front. */
  function TrimStart(s: string): (i: nat)
    ensures i <= |s|
    ensures forall k :: 0 <= k < i ==> s[k] <= ' '
    ensures i < |s| ==> s[i] > ' '
  {
    if |s| > 0 && s[0] <= ' ' then 1 + TrimStart(s[1..]) else 0
  }

  /** End of `s` once trailing characters `<= ' '` at or after `lo` are stripped. */
  function TrimEnd(s: string, lo: nat): (j: nat)
    requires lo <= |s|
    ensures lo <= j <= |s|
    ensures forall k :: j <= k < |s| ==> s[k] <= ' '
    ensures j > lo ==> s[j - 1] > ' '
    decreases |s|
  {
    if |s| > lo && s[|s| - 1] <= ' ' then TrimEnd(s[..|s| - 1], lo) else |s|
  }

  /** `String.trim`: strips every character `<= ' '` from both ends. What is left is a
      slice of `s` that starts and ends with a character above `' '`, and it is empty
      exactly when `s` has no such character. */
  function Trim(s: string): (t: string)
    ensures |t| <= |s| && forall x :: x in t ==> x in s
    ensures t != "" ==> t[0] > ' ' && t[|t| - 1] > ' '
    ensures t == "" <==> !HasVisible(s)
    ensures exists i, j :: (0 <= i <= j <= |s| && t == s[i..j]
      && (forall k :: 0 <= k < i ==> s[k] <= ' ') && (forall k :: j <= k < |s| ==> s[k] <= ' '))
  {
    var i := TrimStart(s);
    var j := TrimEnd(s, i);
    assert i == j ==> forall k :: 0 <= k < |s| ==> s[k] <= ' ';
    assert i < j ==> s[i..j][0] == s[i] && s[i..j][j - i - 1] == s[j - 1];
    s[i..j]
  }

  /** `s` holds a character that `String.trim` keeps. */
  predicate HasVisible(s: string)
  {
    exists k :: 0 <= k < |s| && s[k] > ' '
  }

  /** Trimming a trimmed string changes nothing. */
  lemma TrimIdempotent(s: string)
    ensures Trim(Trim(s)) == Trim(s)
  {
    var t := Trim(s);
    assert TrimStart(t) == 0;
    assert TrimEnd(t, 0) == |t|;
    assert t[0..|t|] == t;
  }

  /** No piece of a literal split contains the separator. */
  lemma {:induction false} SplitAllPiecesFree(s: string, sep: string)
    requires |sep| > 0
    ensures forall p :: p in SplitAll(s, sep) ==> Find(p, sep).None?
    decreases |s|
  {
    match Find(s, sep)
    case None =>
    case Some(i) =>
      var head := s[..i];
      if Find(head, sep).Some? {
        OccursInPrefix(s, sep, i, Find(head, sep).value);
        assert false;
      }
      var rest := s[i + |sep|..];
      SplitAllPiecesFree(rest, sep);
      assert SplitAll(s, sep) == [head] + SplitAll(rest, sep);
  }

  lemma OccursInPrefix(s: string, sep: string, i: nat, k: nat)
    requires i <= |s| && OccursAt(s[..i], sep, k)
    ensures OccursAt(s, sep, k)
  {
    assert s[..i][k..k + |sep|] == s[k..k + |sep|];
  }

  /** Joining the pieces of a literal split with the separator rebuilds the string. */
  lemma {:induction false} JoinSplitAll(s: string, sep: string)
    requires |sep| > 0
    ensures JoinWith(SplitAll(s, sep), sep) == s
    decreases |s|
  {
    match Find(s, sep)
    case None =>
    case Some(i) =>
      var rest := s[i + |sep|..];
      JoinSplitAll(rest, sep);
      JoinAtOccurrence(s, sep, i, SplitAll(rest, sep));
  }

  /** Putting the piece before an occurrence back in front of a join of what follows it. */
  lemma JoinAtOccurrence(s: string, sep: string, i: nat, tail: seq<string>)
    requires OccursAt(s, sep, i) && |tail| > 0
    requires JoinWith(tail, sep) == s[i + |sep|..]
    ensures JoinWith([s[..i]] + tail, sep) == s
  {
    assert ([s[..i]] + tail)[1..] == tail;
    CutAtOccurrence(s, sep, i);
  }

  lemma CutAtOccurrence(s: string, sep: string, i: nat)
    requires OccursAt(s, sep, i)
    ensures s == s[..i] + sep + s[i + |sep|..]
  {
    assert s == s[..i] + s[i..i + |sep|] + s[i + |sep|..];
  }

  /** A one-character separator is found exactly in the strings that contain it. */
  lemma FoundCharIsIn(s: string, c: char)
    ensures Find(s, [c]).Some? <==> c in s
  {
    if Find(s, [c]).Some? {
      var k := Find(s, [c]).value;
      assert s[k..k + 1][0] == s[k];
    }
    if c in s {
      var k :| 0 <= k < |s| && s[k] == c;
      assert s[k..k + 1] == [c];
      assert OccursAt(s, [c], k);
    }
  }

  /** No piece of `JavaSplit` contains the separator. */
  lemma JavaSplitPieces(s: string, sep: string)
    requires |sep| > 0
    ensures forall p :: p in JavaSplit(s, sep) ==> Find(p, sep).None?
  {
    if Find(s, sep).Some? {
      SplitAllPiecesFree(s, sep);
    }
  }

  /** Looking for a one-character separator past a piece that does not contain it
      finds it right after the piece. */
  lemma {:induction false} FindAfterPiece(x: string, c: char, rest: string)
    requires c !in x
    ensures Find(x + [c] + rest, [c]) == Some(|x|)
    decreases |x|
  {
    var s := x + [c] + rest;
    if x == [] {
      assert s[..1] == [c];
    } else {
      assert s[..1] == [x[0]];
      assert [x[0]] != [c];
      assert s[1..] == x[1..] + [c] + rest;
      FindAfterPiece(x[1..], c, rest);
    }
  }

  /** Splitting a comma join of pieces that contain no comma gives the pieces back. */
  lemma {:induction false} SplitAllJoin(parts: seq<string>, c: char)
    requires |parts| > 0
    requires forall p :: p in parts ==> c !in p
    ensures SplitAll(JoinWith(parts, [c]), [c]) == parts
    decreases |parts|
  {
    if |parts| == 1 {
      FoundCharIsIn(parts[0], c);
      assert parts == [parts[0]];
    } else {
      var rest := JoinWith(parts[1..], [c]);
      var s := parts[0] + [c] + rest;
      assert JoinWith(parts, [c]) == s;
      FindAfterPiece(parts[0], c, rest);
      SplitAllAt(s, [c], |parts[0]|);
      assert s[..|parts[0]|] == parts[0];
      assert s[|parts[0]| + 1..] == rest;
      SplitAllJoin(parts[1..], c);
      assert parts == [parts[0]] + parts[1..];
    }
  }

  /** The literal split at the first occurrence of the separator. */
  lemma SplitAllAt(s: string, sep: string, i: nat)
    requires |sep| > 0 && Find(s, sep) == Some(i)
    ensures SplitAll(s, sep) == [s[..i]] + SplitAll(s[i + |sep|..], sep)
  {
  }

  /** `JavaSplit` inverts a comma join whenever no piece contains the comma and the
      last piece is non-empty (or there is only one piece). */
  lemma JavaSplitJoin(parts: seq<string>, c: char)
    requires |parts| > 0
    requires forall p :: p in parts ==> c !in p
    requires |parts| == 1 || parts[|parts| - 1] != ""
    ensures JavaSplit(JoinWith(parts, [c]), [c]) == parts
  {
    var s := JoinWith(parts, [c]);
    SplitAllJoin(parts, c);
    if |parts| > 1 {
      var rest := JoinWith(parts[1..], [c]);
      assert s == parts[0] + [c] + rest;
      FindAfterPiece(parts[0], c, rest);
    }
  }
}
