/** Report codec of the SuperMicro USB LCD: the 16-byte HID report
    geometry, the command bytes and the two's-complement checksum. */
module Proto {

  /** An unsigned 8-bit value (Go's `byte`); wrap-around is written out. */
  type byte = x: int | 0 <= x < 256

  /** A HID report as it travels on the wire: exactly 16 bytes. */
  type Report = r: seq<byte> | |r| == 16 witness seq(16, _ => 0)

  const InputReportID: byte := 0xAA
  const InputReportLen := 16
  const InputReportCmdLen := InputReportLen - 2
  const InputReportDataLen := InputReportCmdLen - 2

  const OutputReportID: byte := 0xBB
  const OutputReportLen := 16
  const OutputReportCmdLen := OutputReportLen - 2
  const OutputReportDataLen := OutputReportCmdLen - 2

  // Command bytes
  const CmdVersion: byte := 0x01
  const CmdLCD: byte := 0x02
  const CmdKeyInput: byte := 0x03
  const CmdBacklight: byte := 0x07

  // LCD sub-command bytes
  const LcdControl: byte := 0x00
  const LcdWrite: byte := 0x02
  const LcdRead: byte := 0x03

  // Control bytes
  const CtlClear: byte := 0x01
  const CtlHome: byte := 0x02
  const CtlCursor: byte := 0x0C
  const CtlCursorPos: byte := 0x80
  const CtlCursorLn: byte := 0x40

  /** Input and output reports share their geometry: sixteen bytes, a
      fourteen-byte command after the report ID, twelve data bytes after a
      two-byte command header. */
  lemma ReportSizes()
    ensures InputReportLen == OutputReportLen == 16
    ensures InputReportCmdLen == OutputReportCmdLen == 14
    ensures InputReportDataLen == OutputReportDataLen == 12
  {
  }

  /** Go's `byte(x)` conversion: keep the low eight bits. */
  function ToByte(x: int): (r: byte) { x % 256 }

  /** Go's `+` on two bytes. */
  function AddByte(a: byte, b: byte): (r: byte) { (a + b) % 256 }

  /** Go's `*` on two bytes. */
  function MulByte(a: byte, b: byte): (r: byte) { (a * b) % 256 }

  /** Adding whole multiples of 256 does not change the low eight bits. */
  lemma ModShift(k: int, t: int)
    ensures (256 * k + t) % 256 == t % 256
  {
  }

  /** `^v + 1` on a byte: bitwise complement (255 - v), then a wrapping increment. */
  function Negate(v: byte): (r: byte) { AddByte(255 - v, 1) }

  /** The value the checksum loop has accumulated after reading all of `b`:
      a left fold of wrapping byte additions. */
  function ByteSum(b: seq<byte>): (r: byte)
    decreases |b|
  {
    if b == [] then 0 else AddByte(ByteSum(b[..|b| - 1]), b[|b| - 1])
  }

  /** The report checksum over `b`. */
  function Checksum(b: seq<byte>): (r: byte)
  {
    Negate(ByteSum(b))
  }

  /** The plain integer sum of `b`, as a reference for the byte arithmetic. */
  function Sum(b: seq<byte>): (r: int)
    decreases |b|
  {
    if b == [] then 0 else Sum(b[..|b| - 1]) + b[|b| - 1]
  }

  /** `n` zero bytes. */
  function Zeros(n: nat): (z: seq<byte>)
    ensures |z| == n && forall i :: 0 <= i < n ==> z[i] == 0
  {
    seq(n, _ => 0)
  }

  /** The checksum loop over a buffer. */
  method ComputeChecksum(b: array<byte>) returns (c: byte)
    ensures c == Checksum(b[..])
  {
    var val: byte := 0;
    for i := 0 to b.Length
      invariant val == ByteSum(b[..i])
    {
      assert b[..i + 1][..i] == b[..i];
      val := (val + b[i]) % 256;
    }
    assert b[..b.Length] == b[..];
    c := ((255 - val) + 1) % 256;
  }

  /** The checksum agrees with the integer definition
      (256 - (sum of b mod 256)) mod 256. */
  lemma {:induction false} ByteSumIsSumMod(b: seq<byte>)
    ensures ByteSum(b) == Sum(b) % 256
    decreases |b|
  {
    if b != [] {
      var a, x := b[..|b| - 1], b[|b| - 1];
      ByteSumIsSumMod(a);
      var k := Sum(a) / 256;
      assert Sum(b) == 256 * k + (ByteSum(a) + x);
      ModShift(k, ByteSum(a) + x);
    }
  }

  lemma ChecksumClosedForm(b: seq<byte>)
    ensures Checksum(b) == (256 - Sum(b) % 256) % 256
  {
    ByteSumIsSumMod(b);
  }

  /** One more byte in the checksum loop. */
  lemma ByteSumSnoc(b: seq<byte>, x: byte)
    ensures ByteSum(b + [x]) == AddByte(ByteSum(b), x)
  {
    assert (b + [x])[..|b|] == b;
  }

  /** `^v + 1` is the additive inverse of `v` in byte arithmetic. */
  lemma NegateCancels(v: byte)
    ensures AddByte(v, Negate(v)) == 0
  {
    if v == 0 {
      assert Negate(v) == 0;
    } else {
      assert Negate(v) == 256 - v;
    }
  }

  /** Appending the checksum makes the whole buffer sum to zero modulo 256. */
  lemma ChecksumCancels(b: seq<byte>)
    ensures ByteSum(b + [Checksum(b)]) == 0
    ensures Sum(b + [Checksum(b)]) % 256 == 0
  {
    ByteSumSnoc(b, Checksum(b));
    NegateCancels(ByteSum(b));
    ByteSumIsSumMod(b + [Checksum(b)]);
  }

  /** Trailing zero bytes leave the integer sum unchanged. */
  lemma {:induction false} SumZeroPadded(a: seq<byte>, k: nat)
    ensures Sum(a + Zeros(k)) == Sum(a)
  {
    if k == 0 {
      assert a + Zeros(k) == a;
    } else {
      var s := a + Zeros(k);
      assert s[..|s| - 1] == a + Zeros(k - 1);
      assert s[|s| - 1] == 0;
      assert Sum(s) == Sum(a + Zeros(k - 1));
      SumZeroPadded(a, k - 1);
    }
  }

  /** A trailing zero byte does not change the checksum. */
  lemma ChecksumZeroAppend(b: seq<byte>)
    ensures Checksum(b + [0]) == Checksum(b)
  {
    ByteSumSnoc(b, 0);
    assert AddByte(ByteSum(b), 0) == ByteSum(b);
  }

  /** The checksum of an all-zero buffer is zero. */
  lemma {:induction false} ChecksumOfZeros(n: nat)
    ensures ByteSum(Zeros(n)) == 0 && Checksum(Zeros(n)) == 0
  {
    if n > 0 {
      var z := Zeros(n);
      assert z[..n - 1] == Zeros(n - 1);
      ChecksumOfZeros(n - 1);
      assert ByteSum(z) == AddByte(ByteSum(Zeros(n - 1)), z[n - 1]);
    }
  }

  /** Go's `copy(dst, src)` into a zeroed buffer of length `n`: `src`
      truncated to `n` bytes, then zero padding. */
  function Fit(src: seq<byte>, n: nat): (r: seq<byte>)
    ensures |r| == n
    ensures forall i :: 0 <= i < n ==> r[i] == if i < |src| then src[i] else 0
  {
    if |src| >= n then src[..n] else src + Zeros(n - |src|)
  }

  /** The output report that carries the command bytes `p`: the output
      report ID, `p` truncated to the command length and zero padded, and
      the checksum byte computed over the whole buffer while its last byte
      is still zero. */
  function OutputReport(p: seq<byte>): (r: Report)
  {
    var body := [OutputReportID] + Fit(p, OutputReportCmdLen);
    body + [Checksum(body + [0])]
  }

  /** Every output report has the documented layout, and its sixteen bytes
      sum to zero modulo 256. */
  lemma OutputReportShape(p: seq<byte>)
    ensures var r := OutputReport(p);
      && r[0] == OutputReportID
      && r[1..15] == Fit(p, OutputReportCmdLen)
      && r[15] == Checksum(r[..15])
      && ByteSum(r) == 0
      && Sum(r) % 256 == 0
  {
    var body := [OutputReportID] + Fit(p, OutputReportCmdLen);
    var r := OutputReport(p);
    ChecksumZeroAppend(body);
    assert r[..15] == body;
    ChecksumCancels(body);
  }

  /** `n` copies of the byte `c`. */
  function Repeat(c: byte, n: nat): (z: seq<byte>)
    ensures |z| == n && forall i :: 0 <= i < n ==> z[i] == c
  {
    seq(n, _ => c)
  }

  lemma {:induction false} SumRepeat(a: seq<byte>, c: byte, k: nat)
    ensures Sum(a + Repeat(c, k)) == Sum(a) + k * c
  {
    if k == 0 {
      assert a + Repeat(c, k) == a;
    } else {
      var s := a + Repeat(c, k);
      var t := a + Repeat(c, k - 1);
      assert s[..|s| - 1] == t;
      assert s[|s| - 1] == c;
      assert Sum(s) == Sum(t) + c;
      SumRepeat(a, c, k - 1);
      assert (k - 1) * c + c == k * c;
    }
  }

  /** Zero padding does not change the checksum. */
  lemma ChecksumZeroPadded(a: seq<byte>, k: nat)
    ensures Checksum(a + Zeros(k)) == Checksum(a)
  {
    SumZeroPadded(a, k);
    ChecksumClosedForm(a);
    ChecksumClosedForm(a + Zeros(k));
  }

  /** An output report for a short command written out byte by byte. */
  lemma OutputReportBytes(p: seq<byte>)
    requires |p| <= OutputReportCmdLen
    ensures OutputReport(p) == [OutputReportID] + p + Zeros(OutputReportCmdLen - |p|) + [Checksum([OutputReportID] + p)]
  {
    var a := [OutputReportID] + p;
    assert [OutputReportID] + Fit(p, OutputReportCmdLen) == a + Zeros(OutputReportCmdLen - |p|);
    ChecksumZeroAppend(a + Zeros(OutputReportCmdLen - |p|));
    ChecksumZeroPadded(a, OutputReportCmdLen - |p|);
  }

  /** The integer sum of a three-byte header. */
  lemma SumOfThree(x: byte, y: byte, z: byte)
    ensures Sum([x, y, z]) == x + y + z
  {
    assert Sum([x]) == x by {
      assert [x][..0] == [];
    }
    assert Sum([x, y]) == x + y by {
      assert [x, y][..1] == [x];
    }
    assert [x, y, z][..2] == [x, y];
  }

  /** The integer sum of a four-byte header. */
  lemma SumOfFour(w: byte, x: byte, y: byte, z: byte)
    ensures Sum([w, x, y, z]) == w + x + y + z
  {
    assert [w, x, y, z][..3] == [w, x, y];
    SumOfThree(w, x, y);
  }

  /** The checksum of a three-byte buffer, in closed form. */
  lemma HeaderChecksum3(x: byte, y: byte, z: byte)
    ensures Checksum([x, y, z]) == (256 - (x + y + z) % 256) % 256
  {
    SumOfThree(x, y, z);
    ChecksumClosedForm([x, y, z]);
  }

  /** The checksum of a four-byte buffer, in closed form. */
  lemma HeaderChecksum4(w: byte, x: byte, y: byte, z: byte)
    ensures Checksum([w, x, y, z]) == (256 - (w + x + y + z) % 256) % 256
  {
    SumOfFour(w, x, y, z);
    ChecksumClosedForm([w, x, y, z]);
  }

  // The report dumps in the protocol notes, each with the checksum shown there.

  /** The clear command as sent. */
  lemma ClearReportVector()
    ensures OutputReport([CmdLCD, LcdControl, CtlClear]) == [0xBB, 0x02, 0x00, 0x01] + Zeros(11) + [0x42]
  {
    var p: seq<byte> := [CmdLCD, LcdControl, CtlClear];
    assert [OutputReportID] + p == [0xBB, 0x02, 0x00, 0x01];
    HeaderChecksum4(0xBB, 0x02, 0x00, 0x01);
    assert Checksum([OutputReportID] + p) == 0x42;
    OutputReportBytes(p);
    assert OutputReport(p) == [OutputReportID] + p + Zeros(11) + [0x42];
  }

  /** The read request as sent. */
  lemma ReadRequestVector()
    ensures OutputReport([CmdLCD, LcdRead]) == [0xBB, 0x02, 0x03] + Zeros(12) + [0x40]
  {
    var p: seq<byte> := [CmdLCD, LcdRead];
    assert [OutputReportID] + p == [0xBB, 0x02, 0x03];
    HeaderChecksum3(0xBB, 0x02, 0x03);
    assert Checksum([OutputReportID] + p) == 0x40;
    OutputReportBytes(p);
    assert OutputReport(p) == [OutputReportID] + p + Zeros(12) + [0x40];
  }

  /** The backlight-off command as sent. */
  lemma BacklightReportVector()
    ensures OutputReport([CmdBacklight, 0x00]) == [0xBB, 0x07, 0x00] + Zeros(12) + [0x3E]
  {
    var p: seq<byte> := [CmdBacklight, 0x00];
    assert [OutputReportID] + p == [0xBB, 0x07, 0x00];
    HeaderChecksum3(0xBB, 0x07, 0x00);
    assert Checksum([OutputReportID] + p) == 0x3E;
    OutputReportBytes(p);
    assert OutputReport(p) == [OutputReportID] + p + Zeros(12) + [0x3E];
  }

  /** A read response holding twelve spaces, as received. */
  lemma ReadResponseVector()
    ensures Checksum([0xAA, 0x02, 0x03] + Repeat(0x20, 12)) == 0xD1
  {
    SumOfThree(0xAA, 0x02, 0x03);
    SumRepeat([0xAA, 0x02, 0x03], 0x20, 12);
    ChecksumClosedForm([0xAA, 0x02, 0x03] + Repeat(0x20, 12));
  }

  /** A key report (key code 00, key event 00), as received. */
  lemma KeyReportVector()
    ensures Checksum([0xAA, 0x03, 0x00] + Zeros(12)) == 0x53
  {
    SumOfThree(0xAA, 0x03, 0x00);
    SumZeroPadded([0xAA, 0x03, 0x00], 12);
    ChecksumClosedForm([0xAA, 0x03, 0x00] + Zeros(12));
  }

  /** Does `b` start with `q`?  (bytes.HasPrefix) */
  predicate HasPrefix(b: seq<byte>, q: seq<byte>)
  {
    |q| <= |b| && b[..|q|] == q
  }

  /** The payload of an input report: the report without its checksum
      byte, with the matched prefix `q` trimmed off when it is there
      (bytes.TrimPrefix of r[:15]). */
  function Payload(r: Report, q: seq<byte>): (s: seq<byte>)
    ensures HasPrefix(r, q) && |q| <= 15 ==> |s| == 15 - |q|
  {
    if HasPrefix(r[..15], q) then r[|q|..15] else r[..15]
  }

  /** Byte j of the payload of a report that starts with q is byte
      |q| + j of the report. */
  lemma PayloadAt(r: Report, q: seq<byte>, j: int)
    requires HasPrefix(r, q) && 0 <= j && |q| + j < 15
    ensures |Payload(r, q)| == 15 - |q| && Payload(r, q)[j] == r[|q| + j]
  {
    assert r[..15][..|q|] == r[..|q|];
  }

  /** A report that starts with q is q, then its payload, then the
      checksum byte; one that does not is its payload and checksum byte. */
  lemma PayloadSplit(r: Report, q: seq<byte>)
    requires |q| <= 15
    ensures HasPrefix(r, q) ==> r == q + Payload(r, q) + [r[15]]
    ensures !HasPrefix(r, q) ==> r == Payload(r, q) + [r[15]]
  {
    assert r == r[..15] + [r[15]];
    if HasPrefix(r, q) {
      assert r[..15][..|q|] == r[..|q|];
      assert r[..15] == q + r[|q|..15];
    }
  }
}
