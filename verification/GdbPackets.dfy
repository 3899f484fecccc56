/** GDB remote protocol framing (src/gdbstub.c:39-51, 116-133, 679-738) over byte streams:
    `$payload#checksum`, as in appendix E.1 of the GDB manual. */
module GdbPackets {
  import opened Words

  const BUF_SIZE := 1024
  const DOLLAR: u8 := 0x24
  const HASH: u8 := 0x23
  const BREAK: u8 := 0x03

  /** Value of a hexadecimal digit, or -1. */
  function HexToNibble(c: u8): (n: int)
    ensures -1 <= n <= 15
  {
    if 0x30 <= c <= 0x39 then c - 0x30
    else if 0x61 <= c <= 0x66 then c - 0x61 + 10
    else if 0x41 <= c <= 0x46 then c - 0x41 + 10
    else -1
  }

  function NibbleToHex(v: u8): u8 {
    var n := v % 0x10;
    if n < 10 then 0x30 + n else 0x61 + n - 10
  }

  lemma NibbleRoundTrip(v: u8)
    requires v < 0x10
    ensures HexToNibble(NibbleToHex(v)) == v
  {
  }

  /** Sum of the bytes modulo 256. */
  function Checksum(bytes: seq<u8>): u8 {
    if bytes == [] then 0 else (Checksum(bytes[..|bytes| - 1]) + bytes[|bytes| - 1]) % 0x100
  }

  /** The checksum is the sum of the bytes: it is the byte itself for one, and adds up. */
  lemma {:induction false} ChecksumAdds(a: seq<u8>, b: seq<u8>)
    ensures Checksum(a + b) == (Checksum(a) + Checksum(b)) % 256
    ensures |b| == 1 ==> Checksum(b) == b[0]
    decreases |b|
  {
    hide Checksum;
    ChecksumNone();
    if b == [] {
      assert a + b == a;
    } else {
      var n := |b| - 1;
      ChecksumAdds(a, b[..n]);
      ChecksumLast(b[..n], b[n]);
      ChecksumLast(a + b[..n], b[n]);
      assert b[..n] + [b[n]] == b && a + b[..n] + [b[n]] == a + b;
      SumsAssociate(Checksum(a), Checksum(b[..n]), b[n]);
    }
  }

  lemma ChecksumNone()
    ensures Checksum([]) == 0
  {
  }

  lemma ChecksumLast(a: seq<u8>, x: u8)
    ensures Checksum(a + [x]) == (Checksum(a) + x) % 256
  {
    assert (a + [x])[..|a|] == a;
  }

  lemma SumsAssociate(x: u8, y: u8, z: u8)
    ensures ((x + y) % 256 + z) % 256 == (x + (y + z) % 256) % 256
  {
    assert (x + y) % 256 == if x + y < 256 then x + y else x + y - 256;
    assert (y + z) % 256 == if y + z < 256 then y + z else y + z - 256;
  }

  /** Hexadecimal digits of either case, and nothing else. */
  lemma DigitsMean(c: u8)
    ensures 48 <= c <= 57 ==> HexToNibble(c) == c - 48
    ensures 97 <= c <= 102 ==> HexToNibble(c) == c - 87
    ensures 65 <= c <= 70 ==> HexToNibble(c) == c - 55
    ensures !(48 <= c <= 57) && !(97 <= c <= 102) && !(65 <= c <= 70) ==> HexToNibble(c) == -1
  {
  }

  /** The two received digits; a bad digit counts as all ones, as the conversions to unsigned char make it. */
  function Expected(hi: u8, lo: u8): u8 {
    var h, l := HexToNibble(hi), HexToNibble(lo);
    if l == -1 then 0xFF else (if h == -1 then 0xF0 else 0x10 * h) + l
  }

  lemma ExpectedOfChecksum(sum: u8)
    ensures Expected(NibbleToHex(sum / 0x10 % 0x10), NibbleToHex(sum % 0x10)) == sum
  {
    NibbleRoundTrip(sum / 0x10);
    NibbleRoundTrip(sum % 0x10);
  }

  // ---------------------------------------------------------------- sending

  /** What fits: the buffer keeps four bytes for framing and one is the dollar sign. */
  function Body(payload: seq<u8>): seq<u8> {
    if |payload| <= BUF_SIZE - 5 then payload else payload[..BUF_SIZE - 5]
  }

  function Packet(body: seq<u8>): seq<u8> {
    [DOLLAR] + body + [HASH, NibbleToHex(Checksum(body) / 0x10 % 0x10), NibbleToHex(Checksum(body) % 0x10)]
  }

  /** `gdb_send_packet`; `payload` is the C string without its terminator. */
  method SendPacket(payload: seq<u8>) returns (sent: seq<u8>)
    ensures sent == Packet(Body(payload))
    ensures |sent| <= BUF_SIZE
  {
    var csum: u8 := 0;
    sent := [DOLLAR];
    var i := 0;
    while i < |payload| && |sent| < BUF_SIZE - 4
      invariant 0 <= i <= |payload| && |sent| == i + 1 <= BUF_SIZE - 4
      invariant sent == [DOLLAR] + payload[..i] && csum == Checksum(payload[..i])
    {
      assert payload[..i + 1][..i] == payload[..i];
      sent := sent + [payload[i]];
      csum := (csum + payload[i]) % 0x100;
      i := i + 1;
    }
    assert payload[..i] == Body(payload);
    sent := sent + [HASH];
    sent := sent + [NibbleToHex(csum / 0x10 % 0x10)];
    sent := sent + [NibbleToHex(csum % 0x10)];
    hide Checksum, NibbleToHex;
  }

  /** `$OK#9a`. */
  lemma PacketExample()
    ensures Packet([79, 75]) == [36, 79, 75, 35, 57, 97]
  {
    hide Checksum;
    ChecksumLast([79], 75);
    ChecksumLast([], 79);
    ChecksumNone();
    assert [79] + [75] == [79, 75] && [] + [79] == [79];
    assert Checksum([79, 75]) == 154 && NibbleToHex(154 / 0x10 % 0x10) == 57 && NibbleToHex(154 % 0x10) == 97;
    hide Checksum, NibbleToHex;
  }

  /** A payload of up to 1019 bytes is sent whole, a longer one cut there. */
  lemma BodyLength(payload: seq<u8>)
    ensures |Body(payload)| == (if |payload| <= 1019 then |payload| else 1019) && Body(payload) <= payload
  {
  }

  // ---------------------------------------------------------------- receiving

  /** `Got` acknowledges with '+', `Rejected` with '-'; `Closed` is the end of the stream. */
  datatype Received = Got(packet: seq<u8>, rest: seq<u8>) | Rejected(rest: seq<u8>) | Interrupted(rest: seq<u8>) | Closed

  /** The stream after the first dollar sign. */
  function Seek(input: seq<u8>): Received {
    if input == [] then Closed
    else if input[0] == BREAK then Interrupted(input[1..])
    else if input[0] == DOLLAR then Got([], input[1..])
    else Seek(input[1..])
  }

  /** Everything up to the hash: the bytes kept, all bytes summed, and what follows. */
  function Collect(input: seq<u8>, kept: seq<u8>, sum: u8, cap: nat): (r: (Received, u8)) {
    if input == [] then (Closed, sum)
    else if input[0] == BREAK then (Interrupted(input[1..]), sum)
    else if input[0] == HASH then (Got(kept, input[1..]), sum)
    else Collect(input[1..], if |kept| + 1 < cap then kept + [input[0]] else kept, (sum + input[0]) % 0x100, cap)
  }

  function Finish(kept: seq<u8>, sum: u8, rest: seq<u8>): Received {
    if |rest| < 2 then Closed
    else if sum == Expected(rest[0], rest[1]) then Got(kept, rest[2..])
    else Rejected(rest[2..])
  }

  /** `gdb_recv_packet` into a buffer of `cap` bytes. */
  function Receive(input: seq<u8>, cap: nat): Received {
    var s := Seek(input);
    if !s.Got? then s
    else
      var c := Collect(s.rest, [], 0, cap);
      if !c.0.Got? then c.0 else Finish(c.0.packet, c.1, c.0.rest)
  }

  /** Drops bytes up to the dollar sign; `at` is the position behind it. */
  method SeekStart(input: seq<u8>) returns (r: Received, at: nat)
    ensures r == Seek(input)
    ensures r.Got? ==> at <= |input| && r.rest == input[at..]
  {
    at := 0;
    assert input[0..] == input;
    while true
      invariant 0 <= at <= |input| && Seek(input) == Seek(input[at..])
      decreases |input| - at
    {
      if at == |input| { return Closed, at; }
      var ch := input[at];
      assert input[at..][1..] == input[at + 1..];
      at := at + 1;
      if ch == BREAK { return Interrupted(input[at..]), at; }
      if ch == DOLLAR { return Got([], input[at..]), at; }
    }
  }

  /** Collects and sums bytes up to the hash. */
  method CollectBody(input: seq<u8>, from: nat, cap: nat) returns (r: Received, sum: u8, at: nat)
    requires from <= |input|
    ensures (r, sum) == Collect(input[from..], [], 0, cap)
    ensures r.Got? ==> at <= |input| && r.rest == input[at..]
  {
    var kept := [];
    at, sum := from, 0;
    while true
      invariant from <= at <= |input|
      invariant Collect(input[from..], [], 0, cap) == Collect(input[at..], kept, sum, cap)
      decreases |input| - at
    {
      if at == |input| { return Closed, sum, at; }
      var ch := input[at];
      assert input[at..][1..] == input[at + 1..];
      at := at + 1;
      if ch == BREAK { return Interrupted(input[at..]), sum, at; }
      if ch == HASH { return Got(kept, input[at..]), sum, at; }
      if |kept| + 1 < cap { kept := kept + [ch]; }
      sum := (sum + ch) % 0x100;
    }
  }

  method ReceivePacket(input: seq<u8>, cap: nat) returns (r: Received)
    ensures r == Receive(input, cap)
  {
    hide Expected, Seek, Collect;
    var start, from := SeekStart(input);
    if !start.Got? { return start; }
    var body, sum, at := CollectBody(input, from, cap);
    if !body.Got? { return body; }
    if at == |input| { return Closed; }
    var hi := input[at];
    if at + 1 == |input| { return Closed; }
    var lo := input[at + 1];
    assert input[at..][2..] == input[at + 2..];
    if sum != Expected(hi, lo) { return Rejected(input[at + 2..]); }
    r := Got(body.packet, input[at + 2..]);
  }

  // ---------------------------------------------------------------- round trip

  ghost predicate Quiet(noise: seq<u8>) { forall i :: 0 <= i < |noise| ==> noise[i] != DOLLAR && noise[i] != BREAK }

  ghost predicate Clean(body: seq<u8>) { forall i :: 0 <= i < |body| ==> body[i] != HASH && body[i] != BREAK }

  lemma {:induction false} SeekSkipsNoise(noise: seq<u8>, rest: seq<u8>)
    requires Quiet(noise)
    ensures Seek(noise + [DOLLAR] + rest) == Got([], rest)
    decreases |noise|
  {
    var input := noise + [DOLLAR] + rest;
    if noise == [] {
      assert input[1..] == rest;
    } else {
      assert input[1..] == noise[1..] + [DOLLAR] + rest;
      SeekSkipsNoise(noise[1..], rest);
    }
  }

  /** Copying one more byte or having no room for it. */
  function Kept(body: seq<u8>, cap: nat): seq<u8> {
    if |body| < cap || cap == 0 then (if cap == 0 then [] else body) else body[..cap - 1]
  }

  lemma {:induction false} CollectTakesBody(done: seq<u8>, body: seq<u8>, rest: seq<u8>, cap: nat)
    requires Clean(body)
    ensures Collect(body + [HASH] + rest, Kept(done, cap), Checksum(done), cap) == (Got(Kept(done + body, cap), rest), Checksum(done + body))
    decreases |body|
  {
    var input := body + [HASH] + rest;
    hide Kept, Checksum;
    if body == [] {
      assert input[0] == HASH && input[1..] == rest && done + body == done;
    } else {
      var tail := body[1..];
      assert input[0] == body[0] && input[1..] == tail + [HASH] + rest;
      assert done + [body[0]] + tail == done + body;
      KeptStep(done, body[0], cap);
      CollectStep(input, Kept(done, cap), Checksum(done), cap);
      hide Collect;
      CollectTakesBody(done + [body[0]], tail, rest, cap);
    }
  }

  lemma CollectStep(input: seq<u8>, kept: seq<u8>, sum: u8, cap: nat)
    requires input != [] && input[0] != HASH && input[0] != BREAK
    ensures Collect(input, kept, sum, cap) ==
            Collect(input[1..], if |kept| + 1 < cap then kept + [input[0]] else kept, (sum + input[0]) % 0x100, cap)
  {
  }

  lemma KeptStep(done: seq<u8>, b: u8, cap: nat)
    ensures Kept(done + [b], cap) == if |Kept(done, cap)| + 1 < cap then Kept(done, cap) + [b] else Kept(done, cap)
    ensures Checksum(done + [b]) == (Checksum(done) + b) % 0x100
  {
    ChecksumLast(done, b);
    hide Checksum;
  }

  /** A framed body is accepted exactly when the two digits give its checksum, and then delivered,
      cut to the buffer. */
  lemma AcceptedIff(noise: seq<u8>, body: seq<u8>, hi: u8, lo: u8, tail: seq<u8>, cap: nat)
    requires Quiet(noise) && Clean(body)
    ensures Receive(noise + [DOLLAR] + (body + [HASH] + ([hi, lo] + tail)), cap) ==
            if Expected(hi, lo) == Checksum(body) then Got(Kept(body, cap), tail) else Rejected(tail)
  {
    hide Expected, Checksum, Kept, Seek, Collect;
    var digits := [hi, lo] + tail;
    var rest := body + [HASH] + digits;
    SeekSkipsNoise(noise, rest);
    KeptNone(cap);
    CollectTakesBody([], body, digits, cap);
    assert [] + body == body;
    assert digits[2..] == tail;
  }

  /** Two hexadecimal digits that spell `sum`. */
  predicate Spells(hi: u8, lo: u8, sum: u8) {
    HexToNibble(hi) >= 0 && HexToNibble(lo) >= 0 && 0x10 * HexToNibble(hi) + HexToNibble(lo) == sum
  }

  /** The digits need not be digits: acceptance means that they spell the checksum exactly unless a
      bad digit stands in for a checksum of all ones, or one whose high nibble is. */
  lemma AcceptedSpellsIff(noise: seq<u8>, body: seq<u8>, hi: u8, lo: u8, tail: seq<u8>, cap: nat)
    requires Quiet(noise) && Clean(body)
    ensures var h, l, sum := HexToNibble(hi), HexToNibble(lo), Checksum(body);
            (Receive(noise + [DOLLAR] + (body + [HASH] + ([hi, lo] + tail)), cap).Got? <==> Spells(hi, lo, sum))
            <==> !(l == -1 && sum == 0xFF) && !(h == -1 && l >= 0 && sum == 0xF0 + l)
  {
    hide Receive, Checksum, HexToNibble, Kept;
    AcceptedIff(noise, body, hi, lo, tail, cap);
  }

  /** `$` 0xFF `#zz` is accepted. */
  lemma BadDigitsExample()
    ensures Receive([] + [DOLLAR] + ([0xFF] + [HASH] + ([0x7A, 0x7A] + [])), BUF_SIZE) == Got([0xFF], [])
  {
    hide Receive;
    AcceptedIff([], [0xFF], 0x7A, 0x7A, [], BUF_SIZE);
    assert Checksum([0xFF]) == 0xFF;
  }

  /** A break byte, before a packet or inside one, ends the reception as an interrupt. */
  lemma {:induction false} BreakInterrupts(noise: seq<u8>, body: seq<u8>, tail: seq<u8>, cap: nat)
    requires Quiet(noise) && Clean(body)
    ensures Receive(noise + [3] + tail, cap) == Interrupted(tail)
    ensures Receive(noise + [36] + (body + [3] + tail), cap) == Interrupted(tail)
  {
    SeekBreaks(noise, tail);
    SeekSkipsNoise(noise, body + [3] + tail);
    CollectBreaks(body, [], 0, tail, cap);
    hide Seek, Collect;
  }

  lemma {:induction false} SeekBreaks(noise: seq<u8>, tail: seq<u8>)
    requires Quiet(noise)
    ensures Seek(noise + [3] + tail) == Interrupted(tail)
    decreases |noise|
  {
    var input := noise + [3] + tail;
    if noise == [] {
      assert input[1..] == tail;
    } else {
      assert input[1..] == noise[1..] + [3] + tail;
      SeekBreaks(noise[1..], tail);
    }
  }

  lemma {:induction false} CollectBreaks(body: seq<u8>, kept: seq<u8>, sum: u8, tail: seq<u8>, cap: nat)
    requires Clean(body)
    ensures Collect(body + [3] + tail, kept, sum, cap).0 == Interrupted(tail)
    decreases |body|
  {
    var input := body + [3] + tail;
    if body == [] {
      assert input[1..] == tail;
    } else {
      assert input[0] == body[0] && input[1..] == body[1..] + [3] + tail;
      CollectBreaks(body[1..], if |kept| + 1 < cap then kept + [input[0]] else kept, (sum + input[0]) % 0x100, tail, cap);
    }
  }

  lemma KeptNone(cap: nat)
    ensures Kept([], cap) == [] && Checksum([]) == 0
  {
  }

  /** Receiving a sent packet, after any line noise, gives the first 1019 bytes of the payload. */
  lemma SendReceiveRoundTrip(noise: seq<u8>, payload: seq<u8>, tail: seq<u8>)
    requires Quiet(noise) && Clean(payload)
    ensures Receive(noise + Packet(Body(payload)) + tail, BUF_SIZE) ==
            Got(if |payload| <= 1019 then payload else payload[..1019], tail)
  {
    hide Receive, Expected, Checksum, NibbleToHex;
    var body := Body(payload);
    var hi, lo := NibbleToHex(Checksum(body) / 0x10 % 0x10), NibbleToHex(Checksum(body) % 0x10);
    assert noise + Packet(body) + tail == noise + [DOLLAR] + (body + [HASH] + ([hi, lo] + tail));
    AcceptedIff(noise, body, hi, lo, tail, BUF_SIZE);
    ExpectedOfChecksum(Checksum(body));
    assert Kept(body, BUF_SIZE) == body;
  }
}
