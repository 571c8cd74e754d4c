/** The uevent scanner of the health daemon: a NUL-separated message in a fixed buffer. */
module Uevent {
  const NUL := '\0'
  const UEVENT_MSG_LEN := 2048
  const TARGET := "SUBSYSTEM=power_supply"

  // ---------- what a message says ----------

  /** The position of the first NUL at or after `i`, or the end. */
  function NextNul(s: string, i: nat): (p: nat)
    requires i <= |s|
    ensures i <= p <= |s| && (p < |s| ==> s[p] == NUL)
    ensures forall k | i <= k < p :: s[k] != NUL
    decreases |s| - i
  {
    if i == |s| || s[i] == NUL then i else NextNul(s, i + 1)
  }

  /** The part of `s` before its first NUL. */
  function Head(s: string): (h: string)
    ensures |h| <= |s| && (|h| < |s| ==> s[|h|] == NUL)
    ensures forall k | 0 <= k < |h| :: h[k] == s[k] != NUL
  {
    s[..NextNul(s, 0)]
  }

  /** The NUL-separated segments of `s`. */
  function Split(s: string): (segments: seq<string>)
    ensures |segments| > 0
    decreases |s|
  {
    var h := Head(s);
    if |h| == |s| then [h] else [h] + Split(s[|h| + 1..])
  }

  /** The segments before the first empty one. */
  function UntilEmpty(segments: seq<string>): seq<string> {
    if segments == [] || segments[0] == "" then [] else [segments[0]] + UntilEmpty(segments[1..])
  }

  /** The message contains the string among the segments before the first empty one. */
  predicate Triggers(content: string, target: string) { target in UntilEmpty(Split(content)) }

  function Join(segments: seq<string>): string {
    if segments == [] then "" else if |segments| == 1 then segments[0] else segments[0] + [NUL] + Join(segments[1..])
  }

  lemma SplitNext(s: string)
    requires |Head(s)| < |s|
    ensures var rest := s[|Head(s)| + 1..];
            s == Head(s) + [NUL] + rest && Split(s) == [Head(s)] + Split(rest)
  {}

  lemma JoinFirst(h: string, segments: seq<string>)
    requires segments != []
    ensures Join([h] + segments) == h + [NUL] + Join(segments)
  {
    assert ([h] + segments)[1..] == segments;
  }

  predicate NulFree(segments: seq<string>) { forall i | 0 <= i < |segments| :: NUL !in segments[i] }

  /** Split is the inverse of joining with NUL, and its segments contain none. */
  lemma {:induction false} SplitJoin(s: string)
    ensures Join(Split(s)) == s && NulFree(Split(s))
    decreases |s|
  {
    var h := Head(s);
    if |h| < |s| {
      var rest := s[|h| + 1..];
      SplitJoin(rest);
      SplitNext(s);
      JoinFirst(h, Split(rest));
    }
  }

  // ---------- the scan ----------

  /** Whether the scan started at the beginning of `s` finds the target, and the position
      at which it stops; `s` ends in a NUL. */
  datatype Found = Found(yes: bool, stop: nat)

  function Scan(s: string, target: string): Found
    requires |s| > 0 && s[|s| - 1] == NUL
    decreases |s|
  {
    var h := Head(s);
    HeadEnds(s);
    if h == "" then Found(false, 0)
    else if h == target then Found(true, 0)
    else if |h| + 1 == |s| then Found(false, |s|)
    else
      var r := Scan(s[|h| + 1..], target);
      Found(r.yes, |h| + 1 + r.stop)
  }

  /** The scan of the rest of `s`, with positions counted from the beginning of `s`. */
  function From(s: string, target: string, cp: nat): Found
    requires cp < |s| && s[|s| - 1] == NUL
  {
    var r := Scan(s[cp..], target);
    Found(r.yes, cp + r.stop)
  }

  lemma HeadEnds(s: string)
    requires |s| > 0 && s[|s| - 1] == NUL
    ensures |Head(s)| < |s|
  {}

  /** The head ends at the first NUL. */
  lemma FirstNul(s: string, i: nat)
    requires i < |s|
    ensures i < |Head(s)| ==> s[i] != NUL
    ensures s[i] == NUL ==> |Head(s)| <= i
  {}

  lemma ScanNext(s: string, target: string)
    requires |s| > 1 && s[|s| - 1] == NUL && 0 < |Head(s)| < |s| - 1
    ensures Scan(s, target)
            == if Head(s) == target then Found(true, 0)
               else
                 var r := Scan(s[|Head(s)| + 1..], target);
                 Found(r.yes, |Head(s)| + 1 + r.stop)
  {}

  lemma DropDrop(s: string, i: nat, j: nat)
    requires i + j <= |s|
    ensures s[i..][j..] == s[i + j..]
  {}

  /** A nonempty segment of a string that ends in two NULs ends before the second of them. */
  lemma SegmentInside(s: string)
    requires |s| > 1 && s[|s| - 2] == s[|s| - 1] == NUL && s[0] != NUL
    ensures 0 < |Head(s)| < |s| - 1
  {
    FirstNul(s, |s| - 2);
  }

  /** One round of the scan of a string that ends in two NULs: a nonempty segment starting
      at `cp` is followed by another position inside the string. */
  lemma ScanStep(s: string, target: string, cp: nat)
    requires cp + 1 < |s| && s[|s| - 2] == s[|s| - 1] == NUL && s[cp] != NUL
    ensures var next := cp + |Head(s[cp..])| + 1;
            && next < |s|
            && From(s, target, cp) == if Head(s[cp..]) == target then Found(true, cp) else From(s, target, next)
  {
    var rest := s[cp..];
    assert rest[0] == s[cp] && rest[|rest| - 2] == s[|s| - 2] && rest[|rest| - 1] == s[|s| - 1];
    SegmentInside(rest);
    ScanNext(rest, target);
    DropDrop(s, cp, |Head(rest)| + 1);
  }

  lemma ScanStops(s: string, target: string, cp: nat)
    requires cp < |s| && s[|s| - 1] == NUL && s[cp] == NUL
    ensures From(s, target, cp) == Found(false, cp)
  {
    assert s[cp..][0] == s[cp];
  }

  /** The scan of a message with its two sentinels finds the target exactly when it is among
      the segments before the first empty one. It stops at the second sentinel, and so needs
      it, exactly when every segment is nonempty and different from the target; in
      particular the message is then not terminated. Otherwise it stops earlier. */
  lemma {:induction false} ScanOfMessage(content: string, target: string)
    requires target != ""
    ensures var r, segments := Scan(content + [NUL, NUL], target), Split(content);
            && (r.yes <==> Triggers(content, target))
            && r.stop <= |content| + 1
            && (r.stop == |content| + 1 <==> UntilEmpty(segments) == segments && target !in segments)
    decreases |content|
  {
    var s, segments := content + [NUL, NUL], Split(content);
    HeadOfPadded(content);
    var h := Head(content);
    assert segments[0] == h;
    if h != "" && h != target {
      if |h| == |content| {
        assert s[|h| + 1..] == [NUL];
        assert UntilEmpty(segments) == [h];
      } else {
        var tail := content[|h| + 1..];
        assert s[|h| + 1..] == tail + [NUL, NUL];
        ScanOfMessage(tail, target);
        assert segments == [h] + Split(tail);
        assert segments[1..] == Split(tail);
      }
    }
  }

  lemma HeadOfPadded(content: string)
    ensures Head(content + [NUL, NUL]) == Head(content)
  {
    HeadBeforeNul(Head(content), (content + [NUL, NUL])[|Head(content)|..]);
    assert content + [NUL, NUL] == Head(content) + (content + [NUL, NUL])[|Head(content)|..];
  }

  lemma HeadBeforeNul(h: string, rest: string)
    requires NUL !in h && (rest == "" || rest[0] == NUL)
    ensures Head(h + rest) == h
  {
    forall k | 0 <= k < |h| ensures (h + rest)[k] != NUL {
      assert (h + rest)[k] == h[k];
    }
    assert rest != "" ==> (h + rest)[|h|] == rest[0];
  }

  // ---------- the code ----------

  /** The buffer starts with `s`, which ends in a NUL, and `cp` points into it. */
  ghost predicate PointsInto(msg: array<char>, cp: nat, s: string)
    reads msg
  {
    && cp < |s| <= msg.Length && s[|s| - 1] == NUL
    && forall i | 0 <= i < |s| :: msg[i] == s[i]
  }

  /** strcmp(cp, target) == 0. */
  method StringEquals(msg: array<char>, cp: nat, target: string, ghost s: string) returns (equal: bool)
    requires PointsInto(msg, cp, s) && NUL !in target
    ensures equal <==> Head(s[cp..]) == target
  {
    ghost var rest := s[cp..];
    HeadEnds(rest);
    ghost var h := Head(rest);
    var i := 0;
    while i < |target| && msg[cp + i] == target[i]
      invariant 0 <= i <= |target| && i <= |h|
      invariant h[..i] == target[..i]
    {
      assert msg[cp + i] == s[cp + i] == rest[i];
      FirstNul(rest, i);
      i := i + 1;
    }
    assert msg[cp + i] == s[cp + i] == rest[i];
    FirstNul(rest, i);
    equal := i == |target| && msg[cp + i] == NUL;
    assert equal ==> h == target[..i];
  }

  /** Advances to just after the next NUL. */
  method AdvancePastNul(msg: array<char>, cp: nat, ghost s: string) returns (next: nat)
    requires PointsInto(msg, cp, s)
    ensures next == cp + |Head(s[cp..])| + 1
  {
    ghost var rest := s[cp..];
    HeadEnds(rest);
    next := cp;
    while msg[next] != NUL
      invariant cp <= next <= cp + |Head(rest)|
      decreases cp + |Head(rest)| - next
    {
      assert msg[next] == s[next] == rest[next - cp];
      next := next + 1;
    }
    assert msg[next] == s[next] == rest[next - cp];
    FirstNul(rest, next - cp);
    next := next + 1;
  }

  /** The body of the outer loop: compare the segment at `cp`, and if it is not the target
      advance to the next one. */
  method CheckSegment(msg: array<char>, cp: nat, target: string, ghost s: string) returns (equal: bool, next: nat)
    requires PointsInto(msg, cp, s) && cp + 1 < |s| && s[|s| - 2] == NUL && msg[cp] != NUL && NUL !in target
    ensures equal ==> next == cp && From(s, target, cp) == Found(true, cp)
    ensures !equal ==> cp < next < |s| && From(s, target, cp) == From(s, target, next)
  {
    ScanStep(s, target, cp);
    equal := StringEquals(msg, cp, target, s);
    next := cp;
    if !equal {
      next := AdvancePastNul(msg, cp, s);
    }
  }

  /** The nested loops: one pass over the segments, stopping at the target or at an empty
      segment. `updates` counts healthd_battery_update calls. */
  method ScanSegments(msg: array<char>, target: string, ghost s: string) returns (updates: nat, cp: nat)
    requires PointsInto(msg, 0, s) && |s| > 1 && s[|s| - 2] == NUL && NUL !in target && target != ""
    ensures Found(updates > 0, cp) == Scan(s, target) && updates <= 1
  {
    cp := 0;
    updates := 0;
    assert s[0..] == s;
    while msg[cp] != NUL
      invariant PointsInto(msg, cp, s)
      invariant updates == 0 && From(s, target, cp) == From(s, target, 0)
      decreases |s| - cp
    {
      var equal;
      equal, cp := CheckSegment(msg, cp, target, s);
      if equal {
        updates := updates + 1;
        break;
      }
    }
    if updates == 0 {
      ScanStops(s, target, cp);
    }
  }

  /** uevent_event once `n` bytes are in the buffer: add the two sentinels and scan. Since
      the buffer may have exactly n + 2 elements, no index beyond n + 1 is ever read. */
  method ScanMessage(msg: array<char>, n: nat) returns (updates: nat)
    requires n + 2 <= msg.Length
    modifies msg
    ensures updates == if Triggers(old(msg[..n]), TARGET) then 1 else 0
    ensures msg[..n] == old(msg[..n])
  {
    ghost var content := msg[..n];
    msg[n] := NUL;
    msg[n + 1] := NUL;
    assert msg[..n + 2] == content + [NUL, NUL];
    var cp;
    updates, cp := ScanSegments(msg, TARGET, content + [NUL, NUL]);
    ScanOfMessage(content, TARGET);
  }

  /** uevent_event. `received` is the result of the multicast receive: negative on error,
      otherwise the number of bytes it wrote to the start of the buffer. */
  method UeventEvent(received: int, bytes: string) returns (updates: nat)
    requires 0 < received <= UEVENT_MSG_LEN ==> |bytes| == received
    ensures updates == if 0 < received < UEVENT_MSG_LEN && Triggers(bytes, TARGET) then 1 else 0
  {
    var msg := new char[UEVENT_MSG_LEN + 2];
    if received <= 0 || received >= UEVENT_MSG_LEN {
      return 0;
    }
    var i := 0;
    while i < received
      invariant 0 <= i <= received
      invariant msg[..i] == bytes[..i]
    {
      msg[i] := bytes[i];
      i := i + 1;
    }
    assert bytes[..received] == bytes;
    updates := ScanMessage(msg, received);
  }

  // ---------- round trip ----------

  predicate Encodable(strings: seq<string>) {
    forall i | 0 <= i < |strings| :: strings[i] != "" && NUL !in strings[i]
  }

  /** The kernel's encoding of a list of strings, with or without the last terminator. */
  function Encode(strings: seq<string>, terminated: bool): string {
    if strings == [] then ""
    else strings[0] + (if |strings| > 1 || terminated then [NUL] else "") + Encode(strings[1..], terminated)
  }

  lemma {:induction false} SplitFirst(h: string, tail: string)
    requires NUL !in h
    ensures Split(h + [NUL] + tail) == [h] + Split(tail)
  {
    var s := h + [NUL] + tail;
    HeadBeforeNul(h, [NUL] + tail);
    assert s == h + ([NUL] + tail);
    assert s[|h| + 1..] == tail;
  }

  lemma SplitOnly(h: string)
    requires NUL !in h
    ensures Split(h) == [h]
  {
    HeadBeforeNul(h, "");
    assert h + "" == h;
  }

  lemma EncodeNext(strings: seq<string>, terminated: bool)
    requires strings != [] && (|strings| > 1 || terminated)
    ensures Encode(strings, terminated) == strings[0] + [NUL] + Encode(strings[1..], terminated)
  {}

  /** Reading an encoded list back gives the list. */
  lemma {:induction false} EncodeRoundTrip(strings: seq<string>, terminated: bool)
    requires Encodable(strings)
    ensures UntilEmpty(Split(Encode(strings, terminated))) == strings
  {
    if strings == [] {
      SplitOnly("");
    } else {
      var h, tail := strings[0], Encode(strings[1..], terminated);
      EncodeRoundTrip(strings[1..], terminated);
      if |strings| > 1 || terminated {
        EncodeNext(strings, terminated);
        SplitFirst(h, tail);
        assert ([h] + Split(tail))[1..] == Split(tail);
      } else {
        assert Encode(strings, terminated) == h;
        SplitOnly(h);
      }
      assert strings == [h] + strings[1..];
    }
  }

  /** The scan of an encoded list triggers exactly when the list contains the target. */
  lemma EncodedTriggers(strings: seq<string>, terminated: bool, target: string)
    requires Encodable(strings)
    ensures Triggers(Encode(strings, terminated), target) <==> target in strings
  {
    EncodeRoundTrip(strings, terminated);
  }

  /** The unterminated encoding is the one that needs the second sentinel: the scan of a
      list without the target stops there iff the list is nonempty and not terminated. */
  lemma SecondSentinelNeeded(strings: seq<string>, terminated: bool, target: string)
    requires Encodable(strings) && target != "" && target !in strings
    ensures var content := Encode(strings, terminated);
            Scan(content + [NUL, NUL], target).stop == |content| + 1 <==> strings != [] && !terminated
  {
    var content := Encode(strings, terminated);
    EncodeRoundTrip(strings, terminated);
    ScanOfMessage(content, target);
    SegmentsOfEncoded(strings, terminated);
  }

  /** What splitting an encoded list leaves behind it: an empty segment after a terminator. */
  function Trailing(strings: seq<string>, terminated: bool): seq<string> {
    if strings == [] || terminated then [""] else []
  }

  lemma {:induction false} SegmentsOfEncoded(strings: seq<string>, terminated: bool)
    requires Encodable(strings)
    ensures Split(Encode(strings, terminated)) == strings + Trailing(strings, terminated)
  {
    if strings == [] {
      SplitOnly("");
    } else if |strings| > 1 || terminated {
      var h, rest := strings[0], strings[1..];
      SegmentsOfEncoded(rest, terminated);
      EncodeNext(strings, terminated);
      SplitFirst(h, Encode(rest, terminated));
      assert [h] + (rest + Trailing(rest, terminated)) == [h] + rest + Trailing(strings, terminated);
      assert [h] + rest == strings;
    } else {
      assert Encode(strings, terminated) == strings[0];
      SplitOnly(strings[0]);
    }
  }
}
