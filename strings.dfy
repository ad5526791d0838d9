/** The string operations of Python's `str` that the publisher uses:
    `sep.join(parts)`, `s.replace(c, d)` for single characters, and
    `s.split(sep)`, the inverse of `join` that the lemmas use. */
module Strings {

  /** `sep.join(parts)`: the parts in order, with `sep` between neighbours. */
  function Join(parts: seq<string>, sep: string): string
    decreases |parts|
  {
    if |parts| == 0 then ""
    else if |parts| == 1 then parts[0]
    else parts[0] + sep + Join(parts[1..], sep)
  }

  /** `s.split(sep)` for a non-empty separator: the pieces between the
      non-overlapping occurrences of `sep`, found from left to right. */
  function Split(s: string, sep: string): (r: seq<string>)
    requires sep != []
    ensures |r| >= 1
    decreases |s|
  {
    if |s| < |sep| then [s]
    else if s[..|sep|] == sep then [""] + Split(s[|sep|..], sep)
    else
      var rest := Split(s[1..], sep);
      [[s[0]] + rest[0]] + rest[1..]
  }

  /** `s.replace(target, replacement)` for single characters. */
  function ReplaceChar(s: string, target: char, replacement: char): (r: string)
    ensures |r| == |s|
    ensures forall i :: 0 <= i < |s| ==> r[i] == (if s[i] == target then replacement else s[i])
    decreases |s|
  {
    if s == [] then []
    else [if s[0] == target then replacement else s[0]] + ReplaceChar(s[1..], target, replacement)
  }

  /** Replacing leaves a string as it was exactly when the character does not occur in it. */
  lemma ReplaceCharIdentity(s: string, target: char, replacement: char)
    requires target != replacement
    ensures ReplaceChar(s, target, replacement) == s <==> target !in s
  {
  }

  /** A string in which the separator's first character never occurs is one piece. */
  lemma {:induction false} SplitNoSeparator(w: string, sep: string)
    requires sep != [] && sep[0] !in w
    ensures Split(w, sep) == [w]
    decreases |w|
  {
    if |w| >= |sep| {
      assert w[..|sep|][0] == w[0];
      SplitNoSeparator(w[1..], sep);
      assert [w[0]] + w[1..] == w;
    }
  }

  /** A leading piece free of the separator's first character is split off whole. */
  lemma {:induction false} SplitPrefix(w: string, sep: string, t: string)
    requires sep != [] && sep[0] !in w
    ensures Split(w + sep + t, sep) == [w] + Split(t, sep)
    decreases |w|
  {
    var s := w + sep + t;
    if w == [] {
      assert s == sep + t;
      assert s[..|sep|] == sep;
      assert s[|sep|..] == t;
    } else {
      assert s[..|sep|][0] == w[0];
      assert s[1..] == w[1..] + sep + t;
      SplitPrefix(w[1..], sep, t);
      assert [w[0]] + w[1..] == w;
    }
  }

  /** Splitting undoes joining when no part contains the separator's first character. */
  lemma {:induction false} SplitJoin(parts: seq<string>, sep: string)
    requires sep != [] && parts != []
    requires forall k :: 0 <= k < |parts| ==> sep[0] !in parts[k]
    ensures Split(Join(parts, sep), sep) == parts
    decreases |parts|
  {
    if |parts| == 1 {
      SplitNoSeparator(parts[0], sep);
    } else {
      SplitPrefix(parts[0], sep, Join(parts[1..], sep));
      SplitJoin(parts[1..], sep);
      assert [parts[0]] + parts[1..] == parts;
    }
  }

  /** Two or more parts always leave the separator in the joined text, right after the first part. */
  lemma JoinSeparatorAfterFirst(parts: seq<string>, sep: string)
    requires |parts| >= 2
    ensures var j := Join(parts, sep);
      |parts[0]| + |sep| <= |j| && j[|parts[0]|..|parts[0]| + |sep|] == sep
  {
  }

  lemma Associative<T>(a: seq<T>, b: seq<T>, c: seq<T>)
    ensures (a + b) + c == a + (b + c)
  {
  }

  /** The lines `ls`, each followed by `end`. */
  function Terminated(ls: seq<string>, end: string): string
    decreases |ls|
  {
    if ls == [] then "" else ls[0] + end + Terminated(ls[1..], end)
  }

  /** Text made of terminated lines splits back into those lines, then into whatever follows. */
  lemma {:induction false} SplitTerminated(ls: seq<string>, sep: string, t: string)
    requires sep != []
    requires forall k :: 0 <= k < |ls| ==> sep[0] !in ls[k]
    ensures Split(Terminated(ls, sep) + t, sep) == ls + Split(t, sep)
    decreases |ls|
  {
    if ls != [] {
      var tail := Terminated(ls[1..], sep);
      assert Terminated(ls, sep) == ls[0] + sep + tail;
      Associative(ls[0] + sep, tail, t);
      assert sep[0] !in ls[0];
      SplitPrefix(ls[0], sep, tail + t);
      assert forall k :: 0 <= k < |ls[1..]| ==> sep[0] !in ls[1..][k];
      SplitTerminated(ls[1..], sep, t);
      assert [ls[0]] + ls[1..] == ls;
      Associative([ls[0]], ls[1..], Split(t, sep));
      assert Split(Terminated(ls, sep) + t, sep) == [ls[0]] + (ls[1..] + Split(t, sep));
    } else {
      assert Terminated(ls, sep) + t == t;
    }
  }
}
