/**
 What cleaning a line keeps, position by position, and exactly when a byte
 order mark is left in the result.
 */
module Cleaning {
  import opened Lines

  /** A whole byte order mark starts at m. */
  predicate MarkAt(s: Bytes, m: int)
  {
    0 <= m && m + 3 <= |s| && s[m] == BOM[0] && s[m + 1] == BOM[1] && s[m + 2] == BOM[2]
  }

  /** Whether the byte at p goes: a carriage return, or a byte of a whole mark. */
  predicate Dropped(s: Bytes, p: nat)
    requires p < |s|
  {
    s[p] == CARRIAGE_RETURN || MarkAt(s, p) || MarkAt(s, p - 1) || MarkAt(s, p - 2)
  }

  /** The bytes from p on that are not dropped. */
  function Survivors(s: Bytes, p: nat): Bytes
    requires p <= |s|
    decreases |s| - p
  {
    if p == |s| then [] else (if Dropped(s, p) then [] else [s[p]]) + Survivors(s, p + 1)
  }

  // ---------------------------------------------------------------------
  // The two passes keep exactly the survivors
  // ---------------------------------------------------------------------

  lemma {:induction false} StripBomFrom(s: Bytes, p: nat)
    requires p < |s|
    ensures MarkAt(s, p) ==> StripBom(s[p..]) == StripBom(s[p + 3..])
    ensures !MarkAt(s, p) ==> StripBom(s[p..]) == [s[p]] + StripBom(s[p + 1..])
  {
    assert MarkAt(s, p) ==> s[p..][3..] == s[p + 3..];
    assert s[p..][1..] == s[p + 1..];
  }

  lemma {:induction false} SkipMark(s: Bytes, p: nat)
    requires MarkAt(s, p)
    ensures Survivors(s, p) == Survivors(s, p + 3)
  {
    assert Survivors(s, p) == Survivors(s, p + 1) == Survivors(s, p + 2);
  }

  lemma {:induction false} CleanFrom(s: Bytes, p: nat)
    requires p <= |s| && !MarkAt(s, p - 1) && !MarkAt(s, p - 2)
    ensures StripCR(StripBom(s[p..])) == Survivors(s, p)
    decreases |s| - p
  {
    if p < |s| {
      StripBomFrom(s, p);
      if MarkAt(s, p) {
        SkipMark(s, p);
        CleanFrom(s, p + 3);
      } else {
        hide StripBom;
        CleanFrom(s, p + 1);
        assert ([s[p]] + StripBom(s[p + 1..]))[1..] == StripBom(s[p + 1..]);
      }
    }
  }

  /** Cleaning removes the carriage returns and the whole marks of the line, and
      nothing else. */
  lemma {:induction false} CleaningKeepsSurvivors(s: Bytes)
    ensures CleanLine(s) == Survivors(s, 0)
  {
    CleanFrom(s, 0);
    assert s[0..] == s;
  }

  // ---------------------------------------------------------------------
  // Survivors and their positions
  // ---------------------------------------------------------------------

  ghost predicate AllDropped(s: Bytes, p: nat, q: nat)
    requires q <= |s|
  {
    forall x :: p <= x < q ==> Dropped(s, x)
  }

  lemma {:induction false} First(s: Bytes, p: nat) returns (k: nat)
    requires p <= |s| && Survivors(s, p) != []
    ensures p <= k < |s| && !Dropped(s, k) && AllDropped(s, p, k)
    ensures Survivors(s, p) == [s[k]] + Survivors(s, k + 1)
    decreases |s| - p
  {
    hide Dropped;
    if Dropped(s, p) {
      k := First(s, p + 1);
    } else {
      k := p;
    }
  }

  lemma {:induction false} SkipTo(s: Bytes, p: nat, k: nat)
    requires p <= k < |s| && !Dropped(s, k) && AllDropped(s, p, k)
    ensures Survivors(s, p) == [s[k]] + Survivors(s, k + 1)
    decreases k - p
  {
    hide Dropped;
    if p < k {
      SkipTo(s, p + 1, k);
    }
  }

  lemma {:induction false} PositionOf(s: Bytes, p: nat, m: nat) returns (q: nat)
    requires p <= |s| && m <= |Survivors(s, p)|
    ensures p <= q <= |s| && Survivors(s, p)[m..] == Survivors(s, q)
    decreases |s| - p
  {
    hide Dropped;
    if m == 0 {
      q := p;
    } else {
      q := PositionOf(s, p + 1, if Dropped(s, p) then m else m - 1);
    }
  }

  lemma {:induction false} RankOf(s: Bytes, p: nat, q: nat) returns (m: nat)
    requires p <= q <= |s|
    ensures m <= |Survivors(s, p)| && Survivors(s, p)[m..] == Survivors(s, q)
    decreases q - p
  {
    hide Dropped;
    if p == q {
      m := 0;
    } else {
      m := RankOf(s, p + 1, q);
      m := if Dropped(s, p) then m else m + 1;
    }
  }

  // ---------------------------------------------------------------------
  // When a mark is left
  // ---------------------------------------------------------------------

  ghost predicate HasMark(s: Bytes)
  {
    exists m :: MarkAt(s, m)
  }

  /** Three bytes that survive and spell a mark, with everything between them
      carriage returns and whole marks. */
  ghost predicate SplitAt(s: Bytes, i: nat, j: nat, k: nat)
  {
    && i < j < k < |s| && s[i] == BOM[0] && s[j] == BOM[1] && s[k] == BOM[2]
    && !Dropped(s, i) && !Dropped(s, j) && !Dropped(s, k)
    && AllDropped(s, i + 1, j) && AllDropped(s, j + 1, k)
  }

  ghost predicate HasSplitMark(s: Bytes)
  {
    exists i, j, k :: SplitAt(s, i, j, k)
  }

  lemma {:induction false} MarkComesFromSplit(s: Bytes, m: nat)
    requires MarkAt(Survivors(s, 0), m)
    ensures HasSplitMark(s)
  {
    hide Survivors, Dropped, AllDropped;
    var t := Survivors(s, 0);
    var q := PositionOf(s, 0, m);
    assert t[m..][0] == BOM[0] && t[m..][1] == BOM[1] && t[m..][2] == BOM[2];
    var i := First(s, q);
    var j := First(s, i + 1);
    var k := First(s, j + 1);
    assert SplitAt(s, i, j, k);
  }

  lemma {:induction false} SplitLeavesMark(s: Bytes, i: nat, j: nat, k: nat)
    requires SplitAt(s, i, j, k)
    ensures HasMark(Survivors(s, 0))
  {
    var m := RankOf(s, 0, i);
    SkipTo(s, i, i);
    SkipTo(s, i + 1, j);
    SkipTo(s, j + 1, k);
    hide Survivors, Dropped, AllDropped;
    var t := Survivors(s, 0);
    assert t[m..] == [BOM[0]] + ([BOM[1]] + ([BOM[2]] + Survivors(s, k + 1)));
    assert t[m] == t[m..][0] && t[m + 1] == t[m..][1] && t[m + 2] == t[m..][2];
    assert MarkAt(t, m);
  }

  lemma {:induction false} NoMarkUntouched(s: Bytes, p: nat)
    requires p <= |s| && !HasMark(s)
    ensures StripBom(s[p..]) == s[p..]
    decreases |s| - p
  {
    if p < |s| {
      assert !MarkAt(s, p);
      StripBomFrom(s, p);
      NoMarkUntouched(s, p + 1);
    }
  }

  lemma {:induction false} MarkShortens(s: Bytes, p: nat, m: nat)
    requires p <= m && MarkAt(s, m)
    ensures |StripBom(s[p..])| < |s| - p
    decreases m - p
  {
    StripBomFrom(s, p);
    if !MarkAt(s, p) {
      MarkShortens(s, p + 1, m);
    }
  }

  lemma {:induction false} StripCRUntouched(s: Bytes)
    requires CARRIAGE_RETURN !in s
    ensures StripCR(s) == s
  {
    if s != [] {
      StripCRUntouched(s[1..]);
    }
  }

  lemma {:induction false} CleanAgain(t: Bytes)
    requires CARRIAGE_RETURN !in t
    ensures CleanLine(t) == t <==> !HasMark(t)
  {
    assert t[0..] == t;
    if m :| MarkAt(t, m) {
      MarkShortens(t, 0, m);
    } else {
      NoMarkUntouched(t, 0);
      StripCRUntouched(t);
    }
  }

  /** A cleaned line holds a mark, and cleaning it again would change it, if and
      only if the line holds a split one. */
  lemma {:induction false} MarkLeftExactlyWhenSplit(s: Bytes)
    ensures HasMark(CleanLine(s)) <==> HasSplitMark(s)
    ensures CleanLine(CleanLine(s)) == CleanLine(s) <==> !HasSplitMark(s)
  {
    CleaningKeepsSurvivors(s);
    CleanAgain(CleanLine(s));
    hide Survivors, CleanLine, MarkAt, SplitAt;
    if m :| MarkAt(CleanLine(s), m) {
      MarkComesFromSplit(s, m);
    } else if i, j, k :| SplitAt(s, i, j, k) {
      SplitLeavesMark(s, i, j, k);
    }
  }
}
