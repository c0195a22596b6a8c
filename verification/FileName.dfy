/**
 Cleaning a peer-supplied file name, in place, in a NUL-terminated buffer
 (src/file_transfer.c:31-81), and the checks made later on the cleaned name
 (src/file_transfer.c:493-518).
 */
module FileName {
  import opened Bytes

  const DOT: Byte := 46
  const SLASH: Byte := 47
  const BACKSLASH: Byte := 92
  const UNDERSCORE: Byte := 95

  predicate Allowed(c: Byte) {
    97 <= c <= 122 || 65 <= c <= 90 || 48 <= c <= 57 || c == DOT || c == UNDERSCORE || c == 45
  }

  // ----- the specification -----

  /** The index just after the last separator (strrchr). */
  function AfterSlash(s: seq<Byte>): (k: nat)
    ensures k <= |s| && (forall i :: k <= i < |s| ==> s[i] != SLASH) && (k == 0 || s[k - 1] == SLASH)
  {
    if s == [] then 0
    else if s[|s| - 1] == SLASH then |s|
    else AfterSlash(s[..|s| - 1])
  }

  function Basename(s: seq<Byte>): (b: seq<Byte>)
    ensures forall i :: 0 <= i < |b| ==> b[i] != SLASH
  {
    s[AfterSlash(s)..]
  }

  function Truncate(s: seq<Byte>, n: nat): (t: seq<Byte>)
  {
    if |s| <= n then s else s[..n]
  }

  function Whitelisted(s: seq<Byte>): (t: seq<Byte>)
    ensures |t| == |s|
    ensures forall i :: 0 <= i < |s| ==> t[i] == if Allowed(s[i]) then s[i] else UNDERSCORE
  {
    seq(|s|, i requires 0 <= i < |s| => if Allowed(s[i]) then s[i] else UNDERSCORE)
  }

  /** Left-to-right replacement of each ".." by "__" from position i on; overlapping pairs are
      seen after replacement. */
  function UndotPairs(s: seq<Byte>, i: nat): (t: seq<Byte>)
    ensures |t| == |s|
    decreases |s| - i
  {
    if i + 1 >= |s| then s
    else if s[i] == DOT && s[i + 1] == DOT then UndotPairs(s[i := UNDERSCORE][i + 1 := UNDERSCORE], i + 1)
    else UndotPairs(s, i + 1)
  }

  function Undotted(s: seq<Byte>): (t: seq<Byte>)
    ensures |t| == |s|
  {
    if s != [] && s[0] == DOT then [UNDERSCORE] + s[1..] else s
  }

  function HexDigit(d: nat): (c: Byte)
    requires d < 16
    ensures Allowed(c) && c != DOT
  {
    if d < 10 then (48 + d) as Byte else (87 + d) as Byte
  }

  function Hex(n: nat, x: nat): (h: seq<Byte>)
    ensures |h| == n
    ensures forall i :: 0 <= i < n ==> Allowed(h[i]) && h[i] != DOT
  {
    if n == 0 then [] else Hex(n - 1, x / 16) + [HexDigit(x % 16)]
  }

  /** "file_%08x" */
  function RandomName(rnd: nat): (r: seq<Byte>)
    ensures |r| == 13
    ensures forall i :: 0 <= i < 13 ==> Allowed(r[i]) && r[i] != DOT
  {
    [102, 105, 108, 101, 95] + Hex(8, rnd)
  }

  function Sanitize(name: seq<Byte>, maxLen: nat, rnd: nat): (r: seq<Byte>)
    requires maxLen > 0
  {
    var cleaned := Undotted(UndotPairs(Whitelisted(Truncate(Basename(name), maxLen - 1)), 0));
    if cleaned == [] then Truncate(RandomName(rnd), maxLen - 1) else cleaned
  }

  // ----- what the specification guarantees -----

  ghost predicate NoDotPair(s: seq<Byte>) {
    forall i :: 0 <= i < |s| - 1 ==> !(s[i] == DOT && s[i + 1] == DOT)
  }

  ghost predicate AllAllowed(s: seq<Byte>) {
    forall i :: 0 <= i < |s| ==> Allowed(s[i])
  }

  ghost predicate Safe(s: seq<Byte>) {
    AllAllowed(s) && NoDotPair(s) && (s != [] ==> s[0] != DOT)
  }

  lemma {:induction false} UndotPairsSafe(s: seq<Byte>, i: nat)
    requires AllAllowed(s)
    requires forall j :: 0 <= j < i && j + 1 < |s| ==> !(s[j] == DOT && s[j + 1] == DOT)
    ensures AllAllowed(UndotPairs(s, i)) && NoDotPair(UndotPairs(s, i))
    ensures NoDotPair(s) ==> UndotPairs(s, i) == s
    decreases |s| - i
  {
    if i + 1 < |s| {
      if s[i] == DOT && s[i + 1] == DOT {
        UndotPairsSafe(s[i := UNDERSCORE][i + 1 := UNDERSCORE], i + 1);
      } else {
        UndotPairsSafe(s, i + 1);
      }
    }
  }

  /** Only dots next to dots are touched by the pair pass. */
  lemma {:induction false} UndotPairsKeeps(s: seq<Byte>, i: nat, k: nat)
    requires k < |s|
    requires s[k] != DOT || ((k == 0 || s[k - 1] != DOT) && (k + 1 == |s| || s[k + 1] != DOT))
    ensures UndotPairs(s, i)[k] == s[k]
    decreases |s| - i
  {
    if i + 1 < |s| {
      if s[i] == DOT && s[i + 1] == DOT {
        UndotPairsKeeps(s[i := UNDERSCORE][i + 1 := UNDERSCORE], i + 1, k);
      } else {
        UndotPairsKeeps(s, i + 1, k);
      }
    }
  }

  lemma BasenameOfClean(s: seq<Byte>)
    requires AllAllowed(s)
    ensures Basename(s) == s
  {
    assert AfterSlash(s) == 0;
  }

  lemma CleanedSafe(w: seq<Byte>)
    requires AllAllowed(w)
    ensures Safe(Undotted(UndotPairs(w, 0)))
  {
    UndotPairsSafe(w, 0);
    var u := UndotPairs(w, 0);
    var d := Undotted(u);
    assert forall i :: 0 < i < |d| ==> d[i] == u[i];
  }

  /** For every name and every limit the result is safe and short; it is empty exactly for the
      one-byte limit, where even the random replacement is cut down to nothing. */
  lemma SanitizeIsSafe(name: seq<Byte>, maxLen: nat, rnd: nat)
    requires maxLen > 0
    ensures var r := Sanitize(name, maxLen, rnd);
            Safe(r) && |r| < maxLen && (r == [] <==> maxLen == 1)
  {
    CleanedSafe(Whitelisted(Truncate(Basename(name), maxLen - 1)));
  }

  /** A non-empty name that is already safe and short enough is kept as it is. */
  lemma SanitizeKeepsSafeNames(name: seq<Byte>, maxLen: nat, rnd: nat)
    requires maxLen > 0 && Safe(name) && 0 < |name| < maxLen
    ensures Sanitize(name, maxLen, rnd) == name
  {
    BasenameOfClean(name);
    assert Whitelisted(name) == name;
    UndotPairsSafe(name, 0);
  }

  /** Cleaning again, with any new random number, changes nothing. */
  lemma SanitizeIsFixpoint(name: seq<Byte>, maxLen: nat, rnd: nat, rnd': nat)
    requires maxLen > 0
    ensures var r := Sanitize(name, maxLen, rnd); Sanitize(r, maxLen, rnd') == r
  {
    var r := Sanitize(name, maxLen, rnd);
    SanitizeIsSafe(name, maxLen, rnd);
    if r != [] {
      SanitizeKeepsSafeNames(r, maxLen, rnd');
    } else {
      assert Truncate(Basename(r), 0) == [];
    }
  }

  lemma WhitelistedNeighbours(t: seq<Byte>, i: nat)
    requires i < |t| && Allowed(t[i])
    ensures Whitelisted(t)[i] == t[i]
    ensures i > 0 && t[i - 1] != DOT ==> Whitelisted(t)[i - 1] != DOT
    ensures i + 1 < |t| && t[i + 1] != DOT ==> Whitelisted(t)[i + 1] != DOT
  {
  }

  /** Every character of the base name that is allowed, and not a dot that leads or touches another
      dot, survives at its place. */
  lemma SanitizeTouchesOnlyOffenders(name: seq<Byte>, maxLen: nat, rnd: nat, i: nat)
    requires i < maxLen - 1 && i < |Basename(name)|
    requires var b := Basename(name);
             Allowed(b[i]) && (b[i] == DOT ==> i > 0 && b[i - 1] != DOT && (i + 1 == |b| || b[i + 1] != DOT))
    ensures i < |Sanitize(name, maxLen, rnd)| && Sanitize(name, maxLen, rnd)[i] == Basename(name)[i]
  {
    var b := Basename(name);
    var t := Truncate(b, maxLen - 1);
    assert i < |t| && t[i] == b[i] && (i > 0 ==> t[i - 1] == b[i - 1]) && (i + 1 < |t| ==> t[i + 1] == b[i + 1]);
    WhitelistedNeighbours(t, i);
    UndotPairsKeeps(Whitelisted(t), 0, i);
  }

  // ----- the later checks (open_recv_file) -----

  const RECEIVED: seq<Byte> := [114, 101, 99, 101, 105, 118, 101, 100, 95]
  const LOCAL_NAME_SIZE: nat := 300

  function LocalName(safe: seq<Byte>): (n: seq<Byte>) {
    RECEIVED + safe
  }

  function FallbackName(safe: seq<Byte>, rnd: nat): (n: seq<Byte>) {
    RECEIVED + safe + [DOT] + Hex(8, rnd)
  }

  /** With the 256-byte name buffer the separator test and both snprintf truncation tests pass for
      every peer-supplied name. */
  lemma LaterChecksPass(name: seq<Byte>, rnd: nat, rnd': nat)
    ensures var r := Sanitize(name, 256, rnd);
            SLASH !in r && BACKSLASH !in r
            && |LocalName(r)| < LOCAL_NAME_SIZE && |FallbackName(r, rnd')| < LOCAL_NAME_SIZE
  {
    SanitizeIsSafe(name, 256, rnd);
  }

  // ----- the in-place algorithm -----

  method FindBasename(a: array<Byte>, len: nat) returns (k: nat)
    requires len <= a.Length
    ensures k <= len && k == AfterSlash(a[..len])
  {
    k := len;
    while k > 0 && a[k - 1] != SLASH
      invariant k <= len
      invariant forall i :: k <= i < len ==> a[i] != SLASH
    {
      k := k - 1;
    }
  }

  /** memmove(name, name + from, n) */
  method MoveDown(name: array<Byte>, from: nat, n: nat)
    requires from + n <= name.Length
    modifies name
    ensures forall i :: 0 <= i < n ==> name[i] == old(name[from + i])
    ensures forall i :: n <= i < name.Length ==> name[i] == old(name[i])
  {
    forall i | 0 <= i < n { name[i] := name[from + i]; }
  }

  /** Keep the part of the text from `cut` on, within the limit. */
  method KeepFrom(name: array<Byte>, cut: nat, end: nat, maxLen: nat) returns (len: nat)
    requires 0 < maxLen <= name.Length && cut <= end < name.Length && name[end] == 0
    modifies name
    ensures len < name.Length && name[len] == 0
    ensures len == if end - cut < maxLen then end - cut else maxLen - 1
    ensures forall i :: 0 <= i < len ==> name[i] == old(name[cut + i])
  {
    len := end;
    if cut > 0 {
      var remain := if end - cut + 1 > maxLen then maxLen else end - cut + 1;
      MoveDown(name, cut, remain);
      name[maxLen - 1] := 0;
      len := if end - cut < maxLen then end - cut else maxLen - 1;
    } else if len >= maxLen {
      len := maxLen - 1;
      name[len] := 0;
    }
  }

  /** Keep what follows the last separator, then apply the length limit. */
  method KeepBasename(name: array<Byte>, maxLen: nat) returns (len: nat)
    requires 0 < maxLen <= name.Length && 0 in name[..]
    modifies name
    ensures len < name.Length && name[len] == 0
    ensures name[..len] == Truncate(Basename(old(CString(name[..]))), maxLen - 1)
    ensures forall i :: 0 <= i < len ==> name[i] != 0
  {
    var end := StrLen(name[..]);
    ghost var text := name[..end];
    assert text == CString(name[..]) && forall i :: 0 <= i < end ==> text[i] != 0;
    var cut := FindBasename(name, end);
    len := KeepFrom(name, cut, end, maxLen);
    ghost var kept := Truncate(Basename(text), maxLen - 1);
    assert |kept| == len && forall i :: 0 <= i < len ==> kept[i] == text[cut + i];
    assert forall i :: 0 <= i < len ==> name[i] == kept[i];
    assert name[..len] == kept;
  }

  method ReplaceDisallowed(name: array<Byte>, len: nat)
    requires len < name.Length
    modifies name
    ensures name[..len] == Whitelisted(old(name[..len]))
    ensures forall j :: len <= j < name.Length ==> name[j] == old(name[j])
  {
    ghost var was := name[..len];
    for i := 0 to len
      invariant forall j :: 0 <= j < i ==> name[j] == Whitelisted(was)[j]
      invariant forall j :: i <= j < name.Length ==> name[j] == old(name[j])
    {
      if !Allowed(name[i]) { name[i] := UNDERSCORE; }
    }
  }

  method ReplaceDotPairs(name: array<Byte>, len: nat)
    requires len < name.Length
    modifies name
    ensures name[..len] == UndotPairs(old(name[..len]), 0)
    ensures forall j :: len <= j < name.Length ==> name[j] == old(name[j])
  {
    ghost var was := name[..len];
    var i := 0;
    while i + 1 < len
      invariant 0 <= i
      invariant forall j :: len <= j < name.Length ==> name[j] == old(name[j])
      invariant UndotPairs(name[..len], i) == UndotPairs(was, 0)
    {
      if name[i] == DOT && name[i + 1] == DOT {
        ghost var now := name[..len];
        name[i] := UNDERSCORE;
        name[i + 1] := UNDERSCORE;
        assert name[..len] == now[i := UNDERSCORE][i + 1 := UNDERSCORE];
      }
      i := i + 1;
    }
  }

  method SanitizeFilename(name: array<Byte>, maxLen: nat, rnd: nat)
    requires maxLen <= name.Length && 0 in name[..]
    modifies name
    ensures maxLen == 0 ==> name[..] == old(name[..])
    ensures maxLen > 0 ==> 0 in name[..] && CString(name[..]) == Sanitize(old(CString(name[..])), maxLen, rnd)
  {
    hide UndotPairs;
    hide AfterSlash;
    hide StrLen;
    if maxLen == 0 { return; }
    var len := KeepBasename(name, maxLen);
    ReplaceDisallowed(name, len);
    ghost var white := name[..len];
    ReplaceDotPairs(name, len);
    ghost var paired := name[..len];
    if len > 0 && name[0] == DOT { name[0] := UNDERSCORE; }
    assert name[..len] == Undotted(paired);
    if len == 0 {
      // snprintf(name, maxLen, "file_%08x", rnd)
      PutString(name, Truncate(RandomName(rnd), maxLen - 1));
    } else {
      CleanedSafe(white);
      Terminated(name, len);
    }
  }

  method PutString(name: array<Byte>, r: seq<Byte>)
    requires |r| < name.Length && forall i :: 0 <= i < |r| ==> r[i] != 0
    modifies name
    ensures 0 in name[..] && CString(name[..]) == r
  {
    forall j | 0 <= j < |r| { name[j] := r[j]; }
    name[|r|] := 0;
    Terminated(name, |r|);
  }

  lemma Terminated(name: array<Byte>, len: nat)
    requires len < name.Length && name[len] == 0 && forall i :: 0 <= i < len ==> name[..len][i] != 0
    ensures 0 in name[..] && CString(name[..]) == name[..len]
  {
    assert forall i :: 0 <= i < len ==> name[..][i] == name[..len][i];
    CStringIs(name[..], len);
    assert name[..][..len] == name[..len];
  }
}
