/** Making log lines safe for JSON: bytes that are not part of a UTF-8 shaped sequence become
    question marks (`AgentHandler::ensure_utf8`). */
module Utf8 {

  type Octets = seq<bv8>

  const QUESTION_MARK: bv8 := 0x3F

  predicate Continues(c: bv8) {
    c & 0xC0 == 0x80
  }

  predicate AllContinue(s: Octets) {
    forall i :: 0 <= i < |s| ==> Continues(s[i])
  }

  /** How many bytes the leading byte announces; 0 for a byte that cannot lead. */
  function Announced(c: bv8): (n: nat)
    ensures n <= 4
  {
    if c < 0x80 then 1
    else if c & 0xE0 == 0xC0 then 2
    else if c & 0xF0 == 0xE0 then 3
    else if c & 0xF8 == 0xF0 then 4
    else 0
  }

  /** The length of the well-shaped sequence `s` starts with, or 0. */
  function Width(s: Octets): (w: nat)
    requires s != []
    ensures w <= |s|
  {
    var n := Announced(s[0]);
    if 0 < n <= |s| && AllContinue(s[1..n]) then n else 0
  }

  /** A concatenation of well-shaped sequences. */
  predicate WellShaped(s: Octets) {
    s == [] || (Width(s) > 0 && WellShaped(s[Width(s)..]))
  }

  function Repaired(s: Octets): Octets {
    if s == [] then []
    else if Width(s) > 0 then s[..Width(s)] + Repaired(s[Width(s)..])
    else [QUESTION_MARK] + Repaired(s[1..])
  }

  /** The sequence that starts at `i`, if there is one there, is kept as it is. */
  predicate ShapedAt(s: Octets, i: nat)
    requires i < |s|
  {
    var n := Announced(s[i]);
    && 0 < n <= |s| - i
    && (n >= 2 ==> Continues(s[i + 1])) && (n >= 3 ==> Continues(s[i + 2])) && (n == 4 ==> Continues(s[i + 3]))
  }

  lemma RepairAt(s: Octets, i: nat)
    requires i < |s|
    ensures var n := if ShapedAt(s, i) then Announced(s[i]) else 1;
      Repaired(s[i..]) == (if ShapedAt(s, i) then s[i..i + n] else [QUESTION_MARK]) + Repaired(s[i + n..])
  {
    var t, n := s[i..], Announced(s[i]);
    if ShapedAt(s, i) {
      assert AllContinue(t[1..n]);
      assert t[..n] == s[i..i + n] && t[n..] == s[i + n..];
    } else {
      if 0 < n <= |t| {
        var tail := t[1..n];
        assert (n >= 2 ==> tail[0] == s[i + 1]) && (n >= 3 ==> tail[1] == s[i + 2]) && (n == 4 ==> tail[2] == s[i + 3]);
      }
      assert t[1..] == s[i + 1..];
    }
  }

  lemma Consumed(s: Octets, i: nat, n: nat, done: Octets, kept: Octets)
    requires i + n <= |s| && Repaired(s) == done + Repaired(s[i..])
    requires Repaired(s[i..]) == kept + Repaired(s[i + n..])
    ensures Repaired(s) == (done + kept) + Repaired(s[i + n..])
  {
  }

  lemma Slices(s: Octets, i: nat)
    requires i < |s|
    ensures s[i..i + 1] == [s[i]]
    ensures i + 2 <= |s| ==> s[i..i + 2] == [s[i], s[i + 1]]
    ensures i + 3 <= |s| ==> s[i..i + 3] == [s[i], s[i + 1], s[i + 2]]
    ensures i + 4 <= |s| ==> s[i..i + 4] == [s[i], s[i + 1], s[i + 2], s[i + 3]]
  {
  }

  lemma RepairedNothing()
    ensures Repaired([]) == []
  {
  }

  method EnsureUtf8(s: Octets) returns (result: Octets)
    ensures result == Repaired(s)
  {
    hide Repaired, Width, AllContinue;
    result := [];
    var i := 0;
    assert s[0..] == s;
    while i < |s|
      invariant i <= |s| && Repaired(s) == result + Repaired(s[i..])
    {
      RepairAt(s, i);
      Slices(s, i);
      ghost var n := if ShapedAt(s, i) then Announced(s[i]) else 1;
      ghost var kept := if ShapedAt(s, i) then s[i..i + n] else [QUESTION_MARK];
      Consumed(s, i, n, result, kept);
      ghost var goal, next := result + kept, i + n;
      var c := s[i];
      if c < 0x80 {
        result := result + [s[i]];
      } else if c & 0xE0 == 0xC0 {
        if i + 1 < |s| && Continues(s[i + 1]) {
          result := result + [s[i], s[i + 1]];
          i := i + 1;
        } else {
          result := result + [QUESTION_MARK];
        }
      } else if c & 0xF0 == 0xE0 {
        if i + 2 < |s| && Continues(s[i + 1]) && Continues(s[i + 2]) {
          result := result + [s[i], s[i + 1], s[i + 2]];
          i := i + 2;
        } else {
          result := result + [QUESTION_MARK];
        }
      } else if c & 0xF8 == 0xF0 {
        if i + 3 < |s| && Continues(s[i + 1]) && Continues(s[i + 2]) && Continues(s[i + 3]) {
          result := result + [s[i], s[i + 1], s[i + 2], s[i + 3]];
          i := i + 3;
        } else {
          result := result + [QUESTION_MARK];
        }
      } else {
        result := result + [QUESTION_MARK];
      }
      i := i + 1;
      assert i == next && result == goal;
    }
    assert s[i..] == [];
    RepairedNothing();
  }

  /** The repair keeps every byte or replaces it by a question mark, and its result is well shaped. */
  lemma {:induction false} RepairedIsWellShaped(s: Octets)
    ensures WellShaped(Repaired(s))
    ensures |Repaired(s)| == |s|
    ensures forall i :: 0 <= i < |s| ==> Repaired(s)[i] == s[i] || (Repaired(s)[i] == QUESTION_MARK && s[i] >= 0x80)
    decreases |s|
  {
    if s != [] {
      var r, w := Repaired(s), Width(s);
      if w > 0 {
        RepairedIsWellShaped(s[w..]);
        assert r[1..w] == s[1..w] && r[w..] == Repaired(s[w..]);
      } else {
        RepairedIsWellShaped(s[1..]);
        assert r[1..1] == [] && r[1..] == Repaired(s[1..]);
      }
    }
  }

  lemma {:induction false} KeepsWellShaped(s: Octets)
    requires WellShaped(s)
    ensures Repaired(s) == s
    decreases |s|
  {
    if s != [] {
      KeepsWellShaped(s[Width(s)..]);
    }
  }

  /** Exactly the well-shaped texts come back unchanged, so repairing twice is repairing once. */
  lemma {:induction false} UnchangedIffWellShaped(s: Octets)
    ensures Repaired(s) == s <==> WellShaped(s)
    ensures Repaired(Repaired(s)) == Repaired(s)
    decreases |s|
  {
    RepairedIsWellShaped(s);
    KeepsWellShaped(Repaired(s));
    if WellShaped(s) {
      KeepsWellShaped(s);
    }
  }

  lemma Regrouped(a: Octets, w: nat, b: Octets)
    requires w <= |a|
    ensures a[..w] + (a[w..] + b) == a + b
  {
  }

  lemma FirstOfAppend(a: Octets, b: Octets)
    requires a != [] && Width(a) > 0
    ensures var w := Width(a);
      Repaired(a + b) == a[..w] + Repaired(a[w..] + b)
  {
    var w := Width(a);
    assert (a + b)[1..w] == a[1..w] && (a + b)[..w] == a[..w] && (a + b)[w..] == a[w..] + b;
  }

  /** A well-shaped beginning is untouched by what follows it. */
  lemma {:induction false} RepairOfAppend(a: Octets, b: Octets)
    requires WellShaped(a)
    ensures Repaired(a + b) == a + Repaired(b)
    decreases |a|
  {
    if a == [] {
      assert a + b == b && a + Repaired(b) == Repaired(b);
    } else {
      hide Width, Repaired;
      FirstOfAppend(a, b);
      var w := Width(a);
      RepairOfAppend(a[w..], b);
      Regrouped(a, w, Repaired(b));
    }
  }

  // ----- The shapes, by ranges of bytes

  predicate Tail(c: bv8) {
    0x80 <= c <= 0xBF
  }

  /** One sequence: a byte up to 7F; or C0-DF, E0-EF or F0-F7 with one, two or three bytes 80-BF. */
  predicate IsUnit(u: Octets) {
    || (|u| == 1 && u[0] <= 0x7F)
    || (|u| == 2 && 0xC0 <= u[0] <= 0xDF && Tail(u[1]))
    || (|u| == 3 && 0xE0 <= u[0] <= 0xEF && Tail(u[1]) && Tail(u[2]))
    || (|u| == 4 && 0xF0 <= u[0] <= 0xF7 && Tail(u[1]) && Tail(u[2]) && Tail(u[3]))
  }

  function Joined(us: seq<Octets>): Octets {
    if us == [] then [] else us[0] + Joined(us[1..])
  }

  /** A concatenation of such sequences. */
  ghost predicate Formed(s: Octets) {
    exists us :: Joined(us) == s && forall i :: 0 <= i < |us| ==> IsUnit(us[i])
  }

  lemma ContinuesByRange(c: bv8)
    ensures Continues(c) <==> Tail(c)
  {
  }

  lemma AnnouncedByRange(c: bv8)
    ensures Announced(c) == 1 <==> c <= 0x7F
    ensures Announced(c) == 2 <==> 0xC0 <= c <= 0xDF
    ensures Announced(c) == 3 <==> 0xE0 <= c <= 0xEF
    ensures Announced(c) == 4 <==> 0xF0 <= c <= 0xF7
  {
  }

  /** The repair's test finds a sequence exactly when the text starts with one. */
  lemma WidthIsUnit(s: Octets)
    requires s != []
    ensures Width(s) > 0 ==> IsUnit(s[..Width(s)])
    ensures forall n :: 0 <= n <= |s| && IsUnit(s[..n]) ==> Width(s) == n
  {
    hide Announced, Continues, Tail;
    AnnouncedByRange(s[0]);
    var k := Announced(s[0]);
    forall i | 0 <= i < |s| ensures Continues(s[i]) <==> Tail(s[i]) {
      ContinuesByRange(s[i]);
    }
    if Width(s) > 0 {
      assert k >= 2 ==> Continues(s[1..k][0]);
      assert k >= 3 ==> Continues(s[1..k][1]);
      assert k >= 4 ==> Continues(s[1..k][2]);
    }
    forall n | 0 <= n <= |s| && IsUnit(s[..n]) ensures Width(s) == n {
      assert s[..n][0] == s[0];
      assert n >= 2 ==> s[..n][1] == s[1];
      assert n >= 3 ==> s[..n][2] == s[2];
      assert n >= 4 ==> s[..n][3] == s[3];
      assert forall i :: 0 <= i < n - 1 ==> s[1..n][i] == s[i + 1];
    }
  }

  lemma FormedPrepend(u: Octets, t: Octets)
    requires IsUnit(u) && Formed(t)
    ensures Formed(u + t)
  {
    hide IsUnit;
    var us :| Joined(us) == t && forall i :: 0 <= i < |us| ==> IsUnit(us[i]);
    var all := [u] + us;
    assert all[1..] == us && Joined(all) == u + t;
  }

  lemma FormedNothing()
    ensures Formed([])
  {
    assert Joined([]) == [];
  }

  lemma Cut(s: Octets, w: nat)
    requires w <= |s|
    ensures s[..w] + s[w..] == s
  {
  }

  lemma {:induction false} WellShapedIsFormed(s: Octets)
    requires WellShaped(s)
    ensures Formed(s)
    decreases |s|
  {
    hide IsUnit, Width, Formed;
    if s == [] {
      FormedNothing();
    } else {
      var w := Width(s);
      WidthIsUnit(s);
      WellShapedIsFormed(s[w..]);
      FormedPrepend(s[..w], s[w..]);
      Cut(s, w);
    }
  }

  lemma {:induction false} JoinedIsWellShaped(us: seq<Octets>)
    requires forall i :: 0 <= i < |us| ==> IsUnit(us[i])
    ensures WellShaped(Joined(us))
    decreases |us|
  {
    if us != [] {
      hide Width;
      JoinedIsWellShaped(us[1..]);
      var s, n := Joined(us), |us[0]|;
      WidthIsUnit(s);
      assert s[..n] == us[0] && s[n..] == Joined(us[1..]);
    }
  }

  /** The repair's result is always formed; exactly the formed texts come back unchanged. */
  lemma RepairedIsFormed(s: Octets)
    ensures Formed(Repaired(s))
    ensures Repaired(s) == s <==> Formed(s)
  {
    hide Repaired, WellShaped;
    RepairedIsWellShaped(s);
    WellShapedIsFormed(Repaired(s));
    UnchangedIffWellShaped(s);
    if Formed(s) {
      var us :| Joined(us) == s && forall i :: 0 <= i < |us| ==> IsUnit(us[i]);
      JoinedIsWellShaped(us);
    }
  }

  lemma UnitNotEmpty(u: Octets)
    requires IsUnit(u)
    ensures u != []
  {
  }

  /** The repair goes from left to right: a sequence at the front is kept, and a byte with which
      none starts, and that byte alone, becomes a question mark. */
  lemma RepairFromLeft(u: Octets, c: bv8, t: Octets)
    ensures IsUnit(u) ==> Repaired(u + t) == u + Repaired(t)
    ensures (forall n :: 0 <= n <= |t| + 1 ==> !IsUnit(([c] + t)[..n])) ==> Repaired([c] + t) == [0x3F] + Repaired(t)
  {
    hide Width, IsUnit;
    if IsUnit(u) {
      UnitNotEmpty(u);
      WidthIsUnit(u + t);
      assert (u + t)[..|u|] == u && (u + t)[|u|..] == t;
    }
    var s := [c] + t;
    WidthIsUnit(s);
    assert s[1..] == t;
  }

  // ----- The standard

  predicate ThreeBytes(c: bv8, second: bv8) {
    0xE0 <= c <= 0xEF && (c == 0xE0 ==> second >= 0xA0) && (c == 0xED ==> second <= 0x9F)
  }

  predicate FourBytes(c: bv8, second: bv8) {
    0xF0 <= c <= 0xF4 && (c == 0xF0 ==> second >= 0x90) && (c == 0xF4 ==> second <= 0x8F)
  }

  /** The length of the UTF8-char of RFC 3629, section 4, that `s` starts with, or 0. */
  function CharWidth(s: Octets): (w: nat)
    requires s != []
    ensures w <= |s|
  {
    var c := s[0];
    if c <= 0x7F then 1
    else if |s| >= 2 && 0xC2 <= c <= 0xDF && Tail(s[1]) then 2
    else if |s| >= 3 && ThreeBytes(c, s[1]) && Tail(s[1]) && Tail(s[2]) then 3
    else if |s| >= 4 && FourBytes(c, s[1]) && Tail(s[1]) && Tail(s[2]) && Tail(s[3]) then 4
    else 0
  }

  predicate ValidUtf8(s: Octets) {
    s == [] || (CharWidth(s) > 0 && ValidUtf8(s[CharWidth(s)..]))
  }

  lemma CharIsShaped(s: Octets)
    requires s != [] && CharWidth(s) > 0
    ensures Width(s) == CharWidth(s)
  {
    var w := CharWidth(s);
    forall i | 1 <= i < w ensures Continues(s[i]) {
      assert Tail(s[i]);
    }
  }

  /** Every text that is valid by section 4 of RFC 3629 is well shaped, so it comes back unchanged. */
  lemma {:induction false} ValidIsUnchanged(s: Octets)
    requires ValidUtf8(s)
    ensures WellShaped(s) && Repaired(s) == s
    decreases |s|
  {
    if s != [] {
      hide Width, CharWidth, Repaired;
      CharIsShaped(s);
      ValidIsUnchanged(s[CharWidth(s)..]);
      KeepsWellShaped(s);
    }
  }

  /** The converse fails: an overlong form keeps its shape and is let through. */
  lemma OverlongPasses()
    ensures var s := [0xC0, 0x80]; Repaired(s) == s && !ValidUtf8(s)
  {
    var s: Octets := [0xC0, 0x80];
    assert Width(s) == 2 && s[2..] == [] && CharWidth(s) == 0;
    KeepsWellShaped(s);
  }
}
