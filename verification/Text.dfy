/** Strings as Go compares them: byte by byte, so `char` stands for one byte. */
module Text {

  datatype Option<+T> = None | Some(value: T)

  lemma {:induction false} SeqAssociates<T>(a: seq<T>, b: seq<T>, c: seq<T>)
    ensures a + b + c == a + (b + c)
  {}

  predicate Less(a: string, b: string)
  {
    b != [] && (a == [] || a[0] < b[0] || (a[0] == b[0] && Less(a[1..], b[1..])))
  }

  lemma {:induction false} LessIsTotal(a: string, b: string)
    ensures a == b || Less(a, b) || Less(b, a)
    ensures !(Less(a, b) && Less(b, a))
    ensures Less(a, b) ==> a != b
  {
    if a != [] && b != [] && a[0] == b[0] {
      LessIsTotal(a[1..], b[1..]);
      assert a == [a[0]] + a[1..] && b == [b[0]] + b[1..];
    }
  }

  lemma {:induction false} LessIsTransitive(a: string, b: string, c: string)
    requires Less(a, b) && Less(b, c)
    ensures Less(a, c)
  {
    if a != [] && a[0] == b[0] == c[0] {
      LessIsTransitive(a[1..], b[1..], c[1..]);
    }
  }

  /** The order is the dictionary's: the first byte in which two strings differ
      decides, and a proper prefix comes first. */
  lemma {:induction false} LessIsLexicographic(a: string, b: string)
    ensures Less(a, b) <==>
              exists k :: 0 <= k <= |a| && k < |b| && a[..k] == b[..k] && (k == |a| || a[k] < b[k])
  {
    if Less(a, b) {
      var k := FirstDifference(a, b);
    } else if k :| 0 <= k <= |a| && k < |b| && a[..k] == b[..k] && (k == |a| || a[k] < b[k]) {
      DecidedAt(a, b, k);
    }
  }

  lemma {:induction false} FirstDifference(a: string, b: string) returns (k: nat)
    requires Less(a, b)
    ensures k <= |a| && k < |b| && a[..k] == b[..k] && (k == |a| || a[k] < b[k])
  {
    if a == [] || a[0] < b[0] {
      k := 0;
    } else {
      k := FirstDifference(a[1..], b[1..]);
      assert a[..k + 1] == [a[0]] + a[1..][..k] && b[..k + 1] == [b[0]] + b[1..][..k];
      k := k + 1;
    }
  }

  lemma {:induction false} DecidedAt(a: string, b: string, k: nat)
    requires k <= |a| && k < |b| && a[..k] == b[..k] && (k == |a| || a[k] < b[k])
    ensures Less(a, b)
    decreases k
  {
    if k > 0 {
      assert a[0] == a[..k][0] == b[..k][0] == b[0];
      assert a[1..][..k - 1] == a[..k][1..] && b[1..][..k - 1] == b[..k][1..];
      DecidedAt(a[1..], b[1..], k - 1);
    }
  }

  /** A configured path is a glob when it holds `*`, `?` or `[`. */
  predicate HasWildcard(path: string)
  {
    exists i :: 0 <= i < |path| && path[i] in "*?["
  }

  lemma {:induction false} WildcardsAre(path: string)
    ensures HasWildcard(path) <==> '*' in path || '?' in path || '[' in path
  {
    forall c | c in path && c in "*?["
      ensures HasWildcard(path)
    {
      var i :| 0 <= i < |path| && path[i] == c;
    }
    assert '*' == "*?["[0] && '?' == "*?["[1] && '[' == "*?["[2];
  }

  /** The pieces between separators, one more than there are separators. */
  function SplitOn(s: string, sep: char): (r: seq<string>)
    ensures r != [] && forall i :: 0 <= i < |r| ==> sep !in r[i]
  {
    if s == "" then [""]
    else
      var rest := SplitOn(s[1..], sep);
      if s[0] == sep then [""] + rest else [[s[0]] + rest[0]] + rest[1..]
  }

  /** Splitting cuts a line off at its terminator. */
  lemma {:induction false} SplitOffFirst(line: string, sep: char, rest: string)
    requires sep !in line
    ensures SplitOn(line + [sep] + rest, sep) == [line] + SplitOn(rest, sep)
  {
    var s := line + [sep] + rest;
    if line == "" {
      assert s[1..] == rest;
    } else {
      var tail := line[1..];
      assert s[1..] == tail + [sep] + rest;
      SplitOffFirst(tail, sep, rest);
      assert [s[0]] + tail == line;
    }
  }

  // ---------------------------------------------------------------------
  // Sorted sequences
  // ---------------------------------------------------------------------

  ghost predicate StrictOrder<T(!new)>(lt: (T, T) -> bool)
  {
    && (forall x :: !lt(x, x))
    && forall x, y, z :: lt(x, y) && lt(y, z) ==> lt(x, z)
  }

  ghost predicate StrictlySorted<T>(s: seq<T>, lt: (T, T) -> bool)
  {
    forall i, j :: 0 <= i < j < |s| ==> lt(s[i], s[j])
  }

  /** A strictly sorted sequence is determined by its elements. */
  lemma {:induction false} SortedIsDetermined<T(!new)>(a: seq<T>, b: seq<T>, lt: (T, T) -> bool)
    requires StrictOrder(lt) && StrictlySorted(a, lt) && StrictlySorted(b, lt)
    requires forall x :: x in a <==> x in b
    ensures a == b
    decreases |a|
  {
    if b != [] {
      assert b[0] in b;
    }
    if a != [] {
      assert a[0] in b;
      SameHead(a, b, lt);
      var h := a[0];
      forall x
        ensures x in a[1..] <==> x in b[1..]
      {
        TailElements(a, lt, x);
        TailElements(b, lt, x);
      }
      SortedIsDetermined(a[1..], b[1..], lt);
      assert a == [h] + a[1..] && b == [h] + b[1..];
    }
  }

  lemma {:induction false} SameHead<T(!new)>(a: seq<T>, b: seq<T>, lt: (T, T) -> bool)
    requires StrictOrder(lt) && StrictlySorted(a, lt) && StrictlySorted(b, lt)
    requires a != [] && b != [] && a[0] in b && b[0] in a
    ensures a[0] == b[0]
  {}

  lemma {:induction false} TailElements<T(!new)>(s: seq<T>, lt: (T, T) -> bool, x: T)
    requires StrictOrder(lt) && StrictlySorted(s, lt) && s != []
    ensures x in s[1..] <==> x in s && x != s[0]
  {}
}
