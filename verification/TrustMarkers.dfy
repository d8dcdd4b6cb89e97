/**
  Trust markers in hostnames (pkg/protocol/payload.go): what removing them does, and exactly
  when a marker is left afterwards.
*/
module TrustMarkers {
  import opened Bytes
  import opened Values

  // "[UNKNOWN]" and "[UNVERIFIED]"
  const UNKNOWN: seq<byte> := [0x5B, 0x55, 0x4E, 0x4B, 0x4E, 0x4F, 0x57, 0x4E, 0x5D]
  const UNVERIFIED: seq<byte> := [0x5B, 0x55, 0x4E, 0x56, 0x45, 0x52, 0x49, 0x46, 0x49, 0x45, 0x44, 0x5D]

  // strings.ReplaceAll(s, marker, "")
  function RemoveAll(s: seq<byte>, marker: seq<byte>): (r: seq<byte>)
    requires marker != []
    ensures |r| <= |s|
    decreases |s|
  {
    if |s| < |marker| then s
    else if s[..|marker|] == marker then RemoveAll(s[|marker|..], marker)
    else [s[0]] + RemoveAll(s[1..], marker)
  }

  function StripMarkers(hostname: seq<byte>): seq<byte> { RemoveAll(RemoveAll(hostname, UNKNOWN), UNVERIFIED) }

  // Text before the first possible start of a marker is kept.
  lemma {:induction false} SkipPlain(plain: seq<byte>, s: seq<byte>, marker: seq<byte>)
    requires marker != [] && marker[0] !in plain
    ensures RemoveAll(plain + s, marker) == plain + RemoveAll(s, marker)
    decreases |plain|
  {
    if plain == [] {
      assert plain + s == s;
    } else {
      var rest := plain[1..];
      assert (plain + s)[1..] == rest + s;
      if |plain + s| >= |marker| {
        assert (plain + s)[..|marker|][0] == plain[0] != marker[0];
        SkipPlain(rest, s, marker);
        assert plain + RemoveAll(s, marker) == [plain[0]] + (rest + RemoveAll(s, marker));
      }
    }
  }

  // A trust prefix is stripped, and nothing else is touched by its presence.
  lemma {:induction false} StripPrefixed(hostname: seq<byte>)
    ensures StripMarkers(UNKNOWN + hostname) == StripMarkers(hostname)
    ensures StripMarkers(UNVERIFIED + hostname) == StripMarkers(hostname)
  {
    assert (UNKNOWN + hostname)[..|UNKNOWN|] == UNKNOWN && (UNKNOWN + hostname)[|UNKNOWN|..] == hostname;
    var s := UNVERIFIED + hostname;
    var plain := UNVERIFIED[1..];
    assert s[1..] == plain + hostname;
    assert s[..|UNKNOWN|][3] == 0x56 && UNKNOWN[3] == 0x4B;
    SkipPlain(plain, hostname, UNKNOWN);
    var t := RemoveAll(hostname, UNKNOWN);
    assert RemoveAll(s, UNKNOWN) == [s[0]] + (plain + t) == UNVERIFIED + t;
    assert (UNVERIFIED + t)[..|UNVERIFIED|] == UNVERIFIED && (UNVERIFIED + t)[|UNVERIFIED|..] == t;
  }

  lemma {:induction false} RemoveIsSubset(s: seq<byte>, marker: seq<byte>, b: byte)
    requires marker != [] && b in RemoveAll(s, marker)
    ensures b in s
    decreases |s|
  {
    if |s| >= |marker| {
      if s[..|marker|] == marker {
        RemoveIsSubset(s[|marker|..], marker, b);
      } else if b != s[0] {
        RemoveIsSubset(s[1..], marker, b);
      }
    }
  }

  lemma {:induction false} StrippedIsPrintable(hostname: seq<byte>)
    requires IsPrintable(hostname)
    ensures IsPrintable(StripMarkers(hostname)) && |StripMarkers(hostname)| <= |hostname|
  {
    forall b | b in StripMarkers(hostname) ensures Printable(b) {
      RemoveIsSubset(RemoveAll(hostname, UNKNOWN), UNVERIFIED, b);
      RemoveIsSubset(hostname, UNKNOWN, b);
    }
  }

  // ----- What is left -----

  const OPEN: byte := 0x5B
  const CLOSE: byte := 0x5D

  predicate OccursAt(marker: seq<byte>, s: seq<byte>, i: int) { 0 <= i <= |s| - |marker| && s[i..i + |marker|] == marker }

  ghost predicate Occurs(marker: seq<byte>, s: seq<byte>) { exists i :: OccursAt(marker, s, i) }

  ghost predicate Marked(s: seq<byte>) { Occurs(UNKNOWN, s) || Occurs(UNVERIFIED, s) }

  lemma {:induction false} OccursInTail(s: seq<byte>, marker: seq<byte>)
    requires marker != [] && |s| >= |marker| && s[..|marker|] != marker
    ensures Occurs(marker, s) <==> Occurs(marker, s[1..])
  {
    if Occurs(marker, s) {
      var i :| OccursAt(marker, s, i);
      assert s[1..][i - 1..i - 1 + |marker|] == s[i..i + |marker|];
      assert OccursAt(marker, s[1..], i - 1);
    }
    if Occurs(marker, s[1..]) {
      var i :| OccursAt(marker, s[1..], i);
      assert s[1..][i..i + |marker|] == s[i + 1..i + 1 + |marker|];
      assert OccursAt(marker, s, i + 1);
    }
  }

  // Removal changes nothing exactly when there is nothing to remove.
  lemma {:induction false} RemoveFixed(s: seq<byte>, marker: seq<byte>)
    requires marker != []
    ensures RemoveAll(s, marker) == s <==> !Occurs(marker, s)
    decreases |s|
  {
    if |s| >= |marker| {
      if s[..|marker|] == marker {
        assert OccursAt(marker, s, 0);
      } else {
        OccursInTail(s, marker);
        RemoveFixed(s[1..], marker);
        assert s == [s[0]] + s[1..];
      }
    }
  }

  lemma {:induction false} StripFixed(hostname: seq<byte>)
    ensures StripMarkers(hostname) == hostname <==> !Marked(hostname)
  {
    RemoveFixed(hostname, UNKNOWN);
    RemoveFixed(hostname, UNVERIFIED);
    if StripMarkers(hostname) == hostname { SameLengthIsSame(hostname, UNKNOWN); }
  }

  lemma {:induction false} SameLengthIsSame(s: seq<byte>, marker: seq<byte>)
    requires marker != [] && |RemoveAll(s, marker)| == |s|
    ensures RemoveAll(s, marker) == s
    decreases |s|
  {
    if |s| >= |marker| && s[..|marker|] != marker { SameLengthIsSame(s[1..], marker); }
  }

  // An opening bracket, no bracket, a closing bracket.
  ghost predicate Bracketed(m: seq<byte>) {
    && |m| >= 2 && m[0] == OPEN && m[|m|-1] == CLOSE
    && forall i :: 0 < i < |m| - 1 ==> m[i] != OPEN && m[i] != CLOSE
  }

  lemma {:induction false} MarkersAreBracketed()
    ensures Bracketed(UNKNOWN) && Bracketed(UNVERIFIED)
  {
  }

  lemma {:induction false} RemoveStep(s: seq<byte>, marker: seq<byte>)
    requires marker != [] && s != [] && (|s| < |marker| || s[..|marker|] != marker)
    ensures RemoveAll(s, marker) == [s[0]] + RemoveAll(s[1..], marker)
  {
    assert s == [s[0]] + s[1..];
  }

  lemma {:induction false} StartsWith(s: seq<byte>, marker: seq<byte>)
    requires |s| >= |marker| && s[..|marker|] == marker
    ensures forall k :: 0 <= k < |marker| ==> s[k] == marker[k]
  {
  }

  lemma {:induction false} TakeOfFirst(a: seq<byte>, b: seq<byte>, n: nat)
    requires n <= |a|
    ensures (a + b)[..n] == a[..n] && (a + b)[n..] == a[n..] + b
  {
  }

  // No marker lies across an opening bracket or across a closing one.
  lemma {:induction false} CutBeforeOpen(a: seq<byte>, b: seq<byte>, marker: seq<byte>)
    requires Bracketed(marker) && (b == [] || b[0] == OPEN)
    ensures RemoveAll(a + b, marker) == RemoveAll(a, marker) + RemoveAll(b, marker)
    decreases |a|
  {
    var s := a + b;
    if a == [] {
      assert s == b;
    } else if |s| >= |marker| && s[..|marker|] == marker {
      StartsWith(s, marker);
      assert b != [] ==> s[|a|] == b[0];
      assert |a| >= |marker|;
      TakeOfFirst(a, b, |marker|);
      CutBeforeOpen(a[|marker|..], b, marker);
    } else {
      if |a| >= |marker| { TakeOfFirst(a, b, |marker|); }
      RemoveStep(s, marker);
      RemoveStep(a, marker);
      TakeOfFirst(a, b, 1);
      CutBeforeOpen(a[1..], b, marker);
      Regroup([a[0]], RemoveAll(a[1..], marker), RemoveAll(b, marker));
    }
  }

  lemma {:induction false} CutAfterClose(a: seq<byte>, b: seq<byte>, marker: seq<byte>)
    requires Bracketed(marker) && (a == [] || a[|a|-1] == CLOSE)
    ensures RemoveAll(a + b, marker) == RemoveAll(a, marker) + RemoveAll(b, marker)
    decreases |a|
  {
    var s := a + b;
    if a == [] {
      assert s == b;
    } else if |s| >= |marker| && s[..|marker|] == marker {
      StartsWith(s, marker);
      assert s[|a| - 1] == CLOSE;
      assert |a| >= |marker|;
      TakeOfFirst(a, b, |marker|);
      CutAfterClose(a[|marker|..], b, marker);
    } else {
      if |a| >= |marker| { TakeOfFirst(a, b, |marker|); }
      RemoveStep(s, marker);
      RemoveStep(a, marker);
      TakeOfFirst(a, b, 1);
      CutAfterClose(a[1..], b, marker);
      Regroup([a[0]], RemoveAll(a[1..], marker), RemoveAll(b, marker));
    }
  }

  lemma {:induction false} Regroup(a: seq<byte>, b: seq<byte>, c: seq<byte>)
    ensures a + (b + c) == (a + b) + c
  {
  }

  // What does not begin with an opening bracket, or end with a closing one, stays at its end.
  lemma {:induction false} FirstStays(s: seq<byte>, marker: seq<byte>)
    requires Bracketed(marker) && s != [] && s[0] != OPEN
    ensures RemoveAll(s, marker) != [] && RemoveAll(s, marker)[0] == s[0]
  {
    assert |s| >= |marker| ==> s[..|marker|][0] == s[0];
    RemoveStep(s, marker);
  }

  lemma {:induction false} LastStays(s: seq<byte>, marker: seq<byte>)
    requires Bracketed(marker) && s != [] && s[|s|-1] != CLOSE
    ensures var r := RemoveAll(s, marker); r != [] && r[|r|-1] == s[|s|-1]
    decreases |s|
  {
    assert |s| == |marker| ==> s[..|marker|] == s;
    if |s| >= |marker| && s[..|marker|] == marker {
      LastStays(s[|marker|..], marker);
    } else {
      RemoveStep(s, marker);
      if |s| > 1 { LastStays(s[1..], marker); }
    }
  }

  // A result that is bracketed comes from a bracketed text.
  lemma {:induction false} EndsOfStripped(s: seq<byte>, marker: seq<byte>)
    requires Bracketed(marker)
    requires var r := RemoveAll(s, marker); r != [] && r[0] == OPEN && r[|r|-1] == CLOSE
    ensures s != [] && s[0] == OPEN && s[|s|-1] == CLOSE
  {
    if s != [] && s[0] != OPEN { FirstStays(s, marker); }
    if s != [] && s[|s|-1] != CLOSE { LastStays(s, marker); }
  }

  // Every prefix, and every stretch, of what is left is what is left of one of the text.
  lemma {:induction false} PrefixLeft(s: seq<byte>, marker: seq<byte>, n: nat) returns (j: nat)
    requires marker != [] && n <= |RemoveAll(s, marker)|
    ensures j <= |s| && RemoveAll(s[..j], marker) == RemoveAll(s, marker)[..n]
    decreases |s|
  {
    if n == 0 {
      j := 0;
    } else if |s| < |marker| {
      j := n;
    } else if s[..|marker|] == marker {
      var rest := PrefixLeft(s[|marker|..], marker, n);
      j := |marker| + rest;
      assert s[..j][..|marker|] == marker && s[..j][|marker|..] == s[|marker|..][..rest];
    } else {
      var rest := PrefixLeft(s[1..], marker, n - 1);
      j := 1 + rest;
      assert |s[..j]| >= |marker| ==> s[..j][..|marker|] == s[..|marker|];
      RemoveStep(s[..j], marker);
      assert s[..j][1..] == s[1..][..rest];
    }
  }

  lemma {:induction false} SuffixLeft(s: seq<byte>, marker: seq<byte>, a: nat) returns (i: nat)
    requires marker != [] && a <= |RemoveAll(s, marker)|
    ensures i <= |s| && RemoveAll(s[i..], marker) == RemoveAll(s, marker)[a..]
    decreases |s|
  {
    if a == 0 {
      i := 0;
      assert s[0..] == s;
    } else if |s| < |marker| {
      i := a;
    } else if s[..|marker|] == marker {
      var rest := SuffixLeft(s[|marker|..], marker, a);
      i := |marker| + rest;
      assert s[|marker|..][rest..] == s[i..];
    } else {
      var rest := SuffixLeft(s[1..], marker, a - 1);
      i := 1 + rest;
      assert s[1..][rest..] == s[i..];
    }
  }

  lemma {:induction false} StretchLeft(s: seq<byte>, marker: seq<byte>, a: nat, b: nat) returns (i: nat, j: nat)
    requires marker != [] && a <= b <= |RemoveAll(s, marker)|
    ensures i <= j <= |s| && RemoveAll(s[i..j], marker) == RemoveAll(s, marker)[a..b]
  {
    j := PrefixLeft(s, marker, b);
    i := SuffixLeft(s[..j], marker, a);
    SliceTwice(s, i, j);
    SliceTwice(RemoveAll(s, marker), a, b);
  }

  lemma {:induction false} SliceTwice<T>(s: seq<T>, i: nat, j: nat)
    requires i <= j <= |s|
    ensures s[..j][i..] == s[i..j]
  {
  }

  // The stretch from i to j of the hostname is stripped to exactly t.
  predicate StripsTo(hostname: seq<byte>, i: int, j: int, t: seq<byte>) { 0 <= i <= j <= |hostname| && StripMarkers(hostname[i..j]) == t }

  lemma {:induction false} Around(before: seq<byte>, x: seq<byte>, after: seq<byte>, marker: seq<byte>)
    requires Bracketed(marker) && x != [] && x[0] == OPEN && x[|x|-1] == CLOSE
    ensures RemoveAll(before + (x + after), marker) == RemoveAll(before, marker) + (RemoveAll(x, marker) + RemoveAll(after, marker))
  {
    assert (x + after)[0] == x[0];
    CutBeforeOpen(before, x + after, marker);
    CutAfterClose(x, after, marker);
  }

  lemma {:induction false} OccursInside(before: seq<byte>, t: seq<byte>, after: seq<byte>)
    ensures Occurs(t, before + (t + after))
  {
    assert OccursAt(t, before + (t + after), |before|);
  }

  lemma {:induction false} ThreeParts<T>(s: seq<T>, i: nat, j: nat)
    requires i <= j <= |s|
    ensures s == s[..i] + (s[i..j] + s[j..])
  {
  }

  lemma {:induction false} StretchRemains(hostname: seq<byte>, i: nat, j: nat, t: seq<byte>)
    requires Bracketed(t) && StripsTo(hostname, i, j, t)
    ensures Occurs(t, StripMarkers(hostname))
  {
    MarkersAreBracketed();
    var x := hostname[i..j];
    var y := RemoveAll(x, UNKNOWN);
    EndsOfStripped(y, UNVERIFIED);
    EndsOfStripped(x, UNKNOWN);
    ThreeParts(hostname, i, j);
    Around(hostname[..i], x, hostname[j..], UNKNOWN);
    var a, b := RemoveAll(hostname[..i], UNKNOWN), RemoveAll(hostname[j..], UNKNOWN);
    Around(a, y, b, UNVERIFIED);
    OccursInside(RemoveAll(a, UNVERIFIED), t, RemoveAll(b, UNVERIFIED));
  }

  // A marker is left exactly when some stretch of the hostname is stripped to that marker.
  lemma {:induction false} MarkerRemains(hostname: seq<byte>, t: seq<byte>)
    requires Bracketed(t)
    ensures Occurs(t, StripMarkers(hostname)) <==> exists i, j :: StripsTo(hostname, i, j, t)
  {
    var once, twice := RemoveAll(hostname, UNKNOWN), StripMarkers(hostname);
    if Occurs(t, twice) {
      var a :| OccursAt(t, twice, a);
      var i1, j1 := StretchLeft(once, UNVERIFIED, a, a + |t|);
      var i, j := StretchLeft(hostname, UNKNOWN, i1, j1);
      assert StripsTo(hostname, i, j, t);
    }
    if exists i, j :: StripsTo(hostname, i, j, t) {
      var i, j :| StripsTo(hostname, i, j, t);
      StretchRemains(hostname, i, j, t);
    }
  }

  // Some stretch of the hostname is stripped to a marker.
  ghost predicate HidesMarker(hostname: seq<byte>) {
    (exists i, j :: StripsTo(hostname, i, j, UNKNOWN)) || (exists i, j :: StripsTo(hostname, i, j, UNVERIFIED))
  }

  // Stripping once is enough exactly when the hostname hides no marker.
  lemma {:induction false} StripOnceIsEnough(hostname: seq<byte>)
    ensures StripMarkers(StripMarkers(hostname)) == StripMarkers(hostname) <==> !HidesMarker(hostname)
  {
    MarkersAreBracketed();
    MarkerRemains(hostname, UNKNOWN);
    MarkerRemains(hostname, UNVERIFIED);
    StripFixed(StripMarkers(hostname));
  }

  // A hostname without an opening bracket hides none.
  lemma {:induction false} PlainHidesNothing(hostname: seq<byte>)
    requires OPEN !in hostname
    ensures StripMarkers(hostname) == hostname && !HidesMarker(hostname)
  {
    assert hostname + [] == hostname;
    SkipPlain(hostname, [], UNKNOWN);
    SkipPlain(hostname, [], UNVERIFIED);
    StripOnceIsEnough(hostname);
  }

  // "[UNK[UNVERIFIED]NOWN]" hides one: removing the inner marker forms an outer one.
  lemma {:induction false} MarkersCanReappear()
    ensures var hostname := UNKNOWN[..4] + UNVERIFIED + UNKNOWN[4..];
            StripMarkers(hostname) == UNKNOWN && HidesMarker(hostname)
  {
    MarkersAreBracketed();
    var front, back := UNKNOWN[..4], UNKNOWN[4..];
    var hostname := front + (UNVERIFIED + back);
    assert hostname == UNKNOWN[..4] + UNVERIFIED + UNKNOWN[4..];
    Untouched(front, UNKNOWN); Untouched(UNVERIFIED, UNKNOWN); Untouched(back, UNKNOWN);
    CutBeforeOpen(front, UNVERIFIED + back, UNKNOWN);
    CutAfterClose(UNVERIFIED, back, UNKNOWN);
    Untouched(front, UNVERIFIED); Untouched(back, UNVERIFIED);
    CutBeforeOpen(front, UNVERIFIED + back, UNVERIFIED);
    CutAfterClose(UNVERIFIED, back, UNVERIFIED);
    assert UNVERIFIED[..|UNVERIFIED|] == UNVERIFIED && UNVERIFIED[|UNVERIFIED|..] == [];
    assert RemoveAll(UNVERIFIED, UNVERIFIED) == [];
    assert front + ([] + back) == UNKNOWN;
    assert hostname[0..|hostname|] == hostname;
    assert StripsTo(hostname, 0, |hostname|, UNKNOWN);
  }

  // A text with no bracket after its first byte, and that does not start with the marker.
  lemma {:induction false} Untouched(s: seq<byte>, marker: seq<byte>)
    requires Bracketed(marker) && OPEN !in s[if s == [] then 0 else 1..] && (|s| < |marker| || s[..|marker|] != marker)
    ensures RemoveAll(s, marker) == s
  {
    if s != [] {
      RemoveStep(s, marker);
      SkipPlain(s[1..], [], marker);
      assert s[1..] + [] == s[1..] && s == [s[0]] + s[1..];
    }
  }
}
