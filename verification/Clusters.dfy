/**
 What a cursor movement of the line editor covers (src/linenoise.c:289-396), told on code points: on every text of
 encoded code points both movements go from boundary to boundary, over exactly the code points that belong together.
 */
module Clusters {
  import opened Bytes
  import opened Utf8

  // ----- encoded text -----

  predicate AllPoints(cps: seq<nat>) {
    forall i :: 0 <= i < |cps| ==> cps[i] <= 0x10FFFF
  }

  function Encode(cps: seq<nat>): (s: seq<Byte>)
    requires AllPoints(cps)
  {
    if cps == [] then [] else EncodePoint(cps[0]) + Encode(cps[1..])
  }

  /** Where code point i begins. */
  function Offset(cps: seq<nat>, i: nat): (n: nat)
    requires AllPoints(cps) && i <= |cps|
  {
    |Encode(cps[..i])|
  }

  lemma {:induction false} EncodeAppend(a: seq<nat>, b: seq<nat>)
    requires AllPoints(a) && AllPoints(b)
    ensures AllPoints(a + b) && Encode(a + b) == Encode(a) + Encode(b)
  {
    hide EncodePoint;
    if a == [] {
      assert a + b == b;
    } else {
      assert (a + b)[0] == a[0] && (a + b)[1..] == a[1..] + b;
      EncodeAppend(a[1..], b);
      assert EncodePoint(a[0]) + (Encode(a[1..]) + Encode(b)) == (EncodePoint(a[0]) + Encode(a[1..])) + Encode(b);
    }
  }

  lemma EncodeOne(cp: nat)
    requires cp <= 0x10FFFF
    ensures Encode([cp]) == EncodePoint(cp)
  {
    assert [cp][1..] == [];
  }

  /** The text around code point i. */
  lemma Around(cps: seq<nat>, i: nat)
    requires AllPoints(cps) && i < |cps|
    ensures AllPoints(cps[..i]) && AllPoints(cps[i + 1..])
    ensures Encode(cps) == Encode(cps[..i]) + EncodePoint(cps[i]) + Encode(cps[i + 1..])
    ensures Offset(cps, i + 1) == Offset(cps, i) + |EncodePoint(cps[i])|
  {
    hide EncodePoint;
    assert cps == cps[..i] + [cps[i]] + cps[i + 1..];
    assert cps[..i + 1] == cps[..i] + [cps[i]];
    EncodeAppend(cps[..i] + [cps[i]], cps[i + 1..]);
    EncodeAppend(cps[..i], [cps[i]]);
    EncodeOne(cps[i]);
  }

  lemma Ends(cps: seq<nat>)
    requires AllPoints(cps)
    ensures Offset(cps, 0) == 0 && Offset(cps, |cps|) == |Encode(cps)|
  {
    assert cps[..0] == [] && cps[..|cps|] == cps;
  }

  lemma {:induction false} OffsetsGrow(cps: seq<nat>, i: nat, j: nat)
    requires AllPoints(cps) && i <= j <= |cps|
    ensures Offset(cps, i) + (j - i) <= Offset(cps, j)
    decreases j - i
  {
    hide Offset;
    hide Encode;
    if i < j {
      Around(cps, j - 1);
      OffsetsGrow(cps, i, j - 1);
    }
  }

  lemma InText(cps: seq<nat>, i: nat)
    requires AllPoints(cps) && i <= |cps|
    ensures Offset(cps, i) <= |Encode(cps)| && (i < |cps| ==> Offset(cps, i) < |Encode(cps)|)
  {
    hide Offset;
    hide Encode;
    Ends(cps);
    OffsetsGrow(cps, i, |cps|);
  }

  lemma DecodeAt(cps: seq<nat>, i: nat)
    requires AllPoints(cps) && i < |cps|
    ensures Offset(cps, i) < |Encode(cps)| && Offset(cps, i + 1) == Offset(cps, i) + |EncodePoint(cps[i])|
    ensures DecodeChar(Encode(cps)[Offset(cps, i)..]) == Point(cps[i], |EncodePoint(cps[i])|)
  {
    hide EncodePoint;
    hide DecodeChar;
    hide Encode;
    Around(cps, i);
    InText(cps, i);
    DecodeEncoded(cps[i], Encode(cps[i + 1..]));
    Behind(Encode(cps[..i]), EncodePoint(cps[i]), Encode(cps[i + 1..]));
  }

  lemma Behind(a: seq<Byte>, b: seq<Byte>, c: seq<Byte>)
    ensures (a + b + c)[|a|..] == b + c
  {
  }

  lemma DecodeBefore(cps: seq<nat>, i: nat)
    requires AllPoints(cps) && 0 < i <= |cps|
    ensures Offset(cps, i) <= |Encode(cps)| && Offset(cps, i) == Offset(cps, i - 1) + |EncodePoint(cps[i - 1])|
    ensures DecodePrev(Encode(cps), Offset(cps, i)) == Point(cps[i - 1], |EncodePoint(cps[i - 1])|)
  {
    hide EncodePoint;
    hide DecodePrev;
    hide Encode;
    Around(cps, i - 1);
    InText(cps, i);
    DecodePrevEncoded(Encode(cps[..i - 1]), cps[i - 1], Encode(cps[i..]));
  }

  // ----- forward -----

  /** How many joiners in a row stand before j, counting back to i. */
  function Joiners(cps: seq<nat>, i: nat, j: nat): (n: nat)
    requires i < j <= |cps|
  {
    if j - 1 > i && IsZwj(cps[j - 1]) then 1 + Joiners(cps, i, j - 1) else 0
  }

  /** Code point j follows a joiner that joins it: of several joiners in a row every second one is itself joined. */
  predicate AfterJoiner(cps: seq<nat>, i: nat, j: nat)
    requires i < j <= |cps|
  {
    Joiners(cps, i, j) % 2 == 1
  }

  /** A regional indicator, not joined, stands between i and j. */
  predicate Paired(cps: seq<nat>, i: nat, j: nat)
    requires i < j <= |cps|
  {
    exists k :: i < k < j && IsRegional(cps[k]) && !AfterJoiner(cps, i, k)
  }

  /** Code point j belongs to the cluster that begins at i: it follows a joiner, it extends, or it is the second half of
      a flag. */
  predicate Joined(cps: seq<nat>, i: nat, j: nat)
    requires i < j < |cps|
  {
    AfterJoiner(cps, i, j) || Extends(cps[j]) || (IsRegional(cps[i]) && IsRegional(cps[j]) && !Paired(cps, i, j))
  }

  /** The cluster that begins at i ends before j. */
  ghost predicate IsCluster(cps: seq<nat>, i: nat, j: nat) {
    && i < j <= |cps|
    && (forall k :: i < k < j ==> Joined(cps, i, k))
    && (j < |cps| ==> !Joined(cps, i, j))
  }

  /** There is only one such j. */
  lemma ClusterUnique(cps: seq<nat>, i: nat, j: nat, k: nat)
    requires IsCluster(cps, i, j) && IsCluster(cps, i, k)
    ensures j == k
  {
  }

  /** The scan of utf8NextCharLen, on code points. */
  function Scan(cps: seq<nat>, cur: nat, regional: bool): (e: nat)
    requires cur <= |cps|
    ensures cur <= e <= |cps|
    decreases |cps| - cur
  {
    if cur == |cps| then cur
    else if IsZwj(cps[cur]) && cur + 1 < |cps| then Scan(cps, cur + 2, regional)
    else if Extends(cps[cur]) then Scan(cps, cur + 1, regional)
    else if regional && IsRegional(cps[cur]) then Scan(cps, cur + 1, false)
    else cur
  }

  lemma {:induction false} ScanOnBytes(cps: seq<nat>, cur: nat, regional: bool)
    requires AllPoints(cps) && cur <= |cps|
    ensures Offset(cps, cur) <= |Encode(cps)|
    ensures ClusterEnd(Encode(cps), Offset(cps, cur), regional) == Offset(cps, Scan(cps, cur, regional))
    decreases |cps| - cur
  {
    hide DecodeChar;
    hide EncodePoint;
    hide Encode;
    hide Offset;
    hide ClusterEnd;
    hide Extends;
    hide IsRegional;
    hide IsZwj;
    var s := Encode(cps);
    InText(cps, cur);
    Ends(cps);
    ClusterStep(s, Offset(cps, cur), regional);
    if cur < |cps| {
      DecodeAt(cps, cur);
      InText(cps, cur + 1);
      ScanOnBytes(cps, cur + 1, regional);
      ScanOnBytes(cps, cur + 1, false);
      if cur + 1 < |cps| {
        DecodeAt(cps, cur + 1);
        ScanOnBytes(cps, cur + 2, regional);
      }
    }
  }

  /** Where the scan stands when it is about to look at cur. */
  ghost predicate AtHead(cps: seq<nat>, i: nat, cur: nat, regional: bool) {
    && i < cur <= |cps| && !AfterJoiner(cps, i, cur)
    && (forall k :: i < k < cur ==> Joined(cps, i, k))
    && regional == (IsRegional(cps[i]) && !Paired(cps, i, cur))
  }

  lemma HeadMoves(cps: seq<nat>, i: nat, cur: nat, regional: bool)
    requires AtHead(cps, i, cur, regional) && cur < |cps|
    ensures Extends(cps[cur]) && !IsZwj(cps[cur]) ==> AtHead(cps, i, cur + 1, regional)
    ensures !Extends(cps[cur]) && regional && IsRegional(cps[cur]) ==> AtHead(cps, i, cur + 1, false)
    ensures IsZwj(cps[cur]) && cur + 1 < |cps| ==> AtHead(cps, i, cur + 2, regional)
  {
    PairedStep(cps, i, cur);
    JoinersStep(cps, i, cur);
    if cur + 1 < |cps| {
      PairedStep(cps, i, cur + 1);
      JoinersStep(cps, i, cur + 1);
    }
  }

  lemma JoinersStep(cps: seq<nat>, i: nat, cur: nat)
    requires i < cur < |cps|
    ensures Joiners(cps, i, cur + 1) == if IsZwj(cps[cur]) then 1 + Joiners(cps, i, cur) else 0
  {
  }

  lemma PairedStep(cps: seq<nat>, i: nat, cur: nat)
    requires i < cur < |cps|
    ensures Paired(cps, i, cur + 1) <==> Paired(cps, i, cur) || (IsRegional(cps[cur]) && !AfterJoiner(cps, i, cur))
  {
  }

  lemma {:induction false} ScanFinds(cps: seq<nat>, i: nat, cur: nat, regional: bool)
    requires AtHead(cps, i, cur, regional)
    ensures IsCluster(cps, i, Scan(cps, cur, regional))
    decreases |cps| - cur
  {
    if cur < |cps| {
      hide Extends;
      hide IsRegional;
      HeadMoves(cps, i, cur, regional);
      ZwjExtends(cps[cur]);
      if IsZwj(cps[cur]) && cur + 1 < |cps| {
        ScanFinds(cps, i, cur + 2, regional);
      } else if Extends(cps[cur]) {
        if IsZwj(cps[cur]) {
          assert cur + 1 == |cps|;
        } else {
          ScanFinds(cps, i, cur + 1, regional);
        }
      } else if regional && IsRegional(cps[cur]) {
        ScanFinds(cps, i, cur + 1, false);
      }
    }
  }

  lemma ZwjExtends(cp: nat)
    ensures IsZwj(cp) ==> Extends(cp)
  {
  }

  /** Moving right from a code-point boundary moves to a boundary, over exactly one cluster. */
  lemma NextMovesOneCluster(cps: seq<nat>, i: nat) returns (j: nat)
    requires AllPoints(cps) && i < |cps|
    ensures IsCluster(cps, i, j) && Offset(cps, i) <= |Encode(cps)|
    ensures Offset(cps, i) + NextCharLen(Encode(cps), Offset(cps, i)) == Offset(cps, j)
  {
    hide DecodeChar;
    hide EncodePoint;
    hide Encode;
    hide Offset;
    DecodeAt(cps, i);
    var regional := IsRegional(cps[i]);
    j := Scan(cps, i + 1, regional);
    ScanOnBytes(cps, i + 1, regional);
    ScanFinds(cps, i, i + 1, regional);
  }

  // ----- backward -----

  /** Code point b belongs to what stands before it. */
  predicate Bound(cps: seq<nat>, b: nat)
    requires b < |cps|
  {
    b > 0 && (IsZwj(cps[b - 1]) || Extends(cps[b]))
  }

  predicate RegionalPair(cps: seq<nat>, b: nat)
    requires b < |cps|
  {
    b > 0 && IsRegional(cps[b - 1]) && IsRegional(cps[b])
  }

  /** The last code point before j that is not bound to its predecessor is b. */
  ghost predicate LastFree(cps: seq<nat>, b: nat, j: nat) {
    b < j <= |cps| && !Bound(cps, b) && forall k :: b < k < j ==> Bound(cps, k)
  }

  /** The scan of utf8PrevCharLen, on code points. */
  function ScanBack(cps: seq<nat>, cur: nat): (b: nat)
    requires cur < |cps|
    ensures b <= cur
  {
    if cur == 0 then 0
    else if IsZwj(cps[cur - 1]) then (if cur == 1 then 0 else ScanBack(cps, cur - 2))
    else if Extends(cps[cur]) then ScanBack(cps, cur - 1)
    else if IsRegional(cps[cur]) && IsRegional(cps[cur - 1]) then cur - 1
    else cur
  }

  lemma {:induction false} ScanBackOnBytes(cps: seq<nat>, cur: nat)
    requires AllPoints(cps) && cur < |cps|
    ensures Offset(cps, cur) <= |Encode(cps)|
    ensures ClusterStart(Encode(cps), Offset(cps, cur), cps[cur]) == Offset(cps, ScanBack(cps, cur))
    decreases cur
  {
    hide DecodePrev;
    hide EncodePoint;
    hide Encode;
    hide Offset;
    hide Extends;
    hide IsRegional;
    hide IsZwj;
    Ends(cps);
    InText(cps, cur);
    if cur > 0 {
      OffsetsGrow(cps, 0, cur);
      DecodeBefore(cps, cur);
      ScanBackOnBytes(cps, cur - 1);
      if cur > 1 {
        OffsetsGrow(cps, 0, cur - 1);
        DecodeBefore(cps, cur - 1);
        ScanBackOnBytes(cps, cur - 2);
      }
    }
  }

  lemma {:induction false} ScanBackFinds(cps: seq<nat>, cur: nat) returns (b: nat)
    requires cur < |cps|
    ensures LastFree(cps, b, cur + 1) && ScanBack(cps, cur) == if RegionalPair(cps, b) then b - 1 else b
  {
    ZwjExtends(cps[cur]);
    if cur == 0 {
      b := 0;
    } else if IsZwj(cps[cur - 1]) {
      ZwjExtends(cps[cur - 1]);
      if cur == 1 { b := 0; } else { b := ScanBackFinds(cps, cur - 2); }
    } else if Extends(cps[cur]) {
      b := ScanBackFinds(cps, cur - 1);
    } else {
      b := cur;
    }
  }

  /** Moving left from a code-point boundary moves to a boundary: to the last code point that is not bound to its
      predecessor, or, if that is a regional indicator after another, to the other. */
  lemma PrevMovesOneCluster(cps: seq<nat>, j: nat) returns (b: nat)
    requires AllPoints(cps) && 0 < j <= |cps|
    ensures LastFree(cps, b, j) && Offset(cps, j) <= |Encode(cps)|
    ensures Offset(cps, j) - PrevCharLen(Encode(cps), Offset(cps, j)) == Offset(cps, if RegionalPair(cps, b) then b - 1 else b)
  {
    hide DecodePrev;
    hide EncodePoint;
    hide Encode;
    hide Offset;
    DecodeBefore(cps, j);
    OffsetsGrow(cps, 0, j);
    Ends(cps);
    ScanBackOnBytes(cps, j - 1);
    b := ScanBackFinds(cps, j - 1);
  }

  // ----- there and back -----

  /** Every code point of a cluster after its first is bound, but for the second half of a flag. */
  lemma ClusterIsBound(cps: seq<nat>, i: nat, j: nat, k: nat)
    requires IsCluster(cps, i, j) && i < k < j && !Bound(cps, k)
    ensures IsRegional(cps[i]) && IsRegional(cps[k]) && !Paired(cps, i, k)
    ensures forall m :: k < m < j ==> Bound(cps, m)
  {
    assert Joined(cps, i, k);
    forall m | k < m < j ensures Bound(cps, m) {
      assert Joined(cps, i, m);
      assert Paired(cps, i, m) by { assert IsRegional(cps[k]) && !AfterJoiner(cps, i, k); }
    }
  }

  /** One cluster right and one left again: back at the start exactly when the cluster is a plain flag, or else the start
      is bound to nothing before it and does not follow a regional indicator with another. */
  ghost predicate ComesBack(cps: seq<nat>, i: nat, j: nat)
    requires i < j <= |cps|
  {
    || (i + 1 < j && !Bound(cps, i + 1))
    || ((forall k :: i < k < j ==> Bound(cps, k)) && !Bound(cps, i) && !RegionalPair(cps, i))
  }

  lemma ThereAndBack(cps: seq<nat>, i: nat) returns (j: nat)
    requires AllPoints(cps) && i < |cps|
    ensures IsCluster(cps, i, j) && Offset(cps, i) <= Offset(cps, j) <= |Encode(cps)|
    ensures Offset(cps, i) + NextCharLen(Encode(cps), Offset(cps, i)) == Offset(cps, j)
    ensures Offset(cps, j) - PrevCharLen(Encode(cps), Offset(cps, j)) == Offset(cps, i) <==> ComesBack(cps, i, j)
  {
    hide EncodePoint;
    hide Encode;
    hide Offset;
    hide NextCharLen;
    hide PrevCharLen;
    j := NextMovesOneCluster(cps, i);
    OffsetsGrow(cps, i, j);
    InText(cps, j);
    var b := PrevMovesOneCluster(cps, j);
    var back := if RegionalPair(cps, b) then b - 1 else b;
    if back < i { OffsetsGrow(cps, back, i); } else { OffsetsGrow(cps, i, back); }
    BackWhere(cps, i, j, b);
  }

  lemma BackWhere(cps: seq<nat>, i: nat, j: nat, b: nat)
    requires IsCluster(cps, i, j) && LastFree(cps, b, j)
    ensures (if RegionalPair(cps, b) then b - 1 else b) == i <==> ComesBack(cps, i, j)
  {
    hide Extends;
    hide IsRegional;
    if b > i {
      ClusterIsBound(cps, i, j, b);
      if !Bound(cps, i + 1) { ClusterIsBound(cps, i, j, i + 1); }
    }
  }
}
