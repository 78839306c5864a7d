/**
  Reply check of the MAX! Cube discovery: the received buffer is read as text, trimmed
  the way Java's `String.trim` does it, accepted when it starts with "eQ3Max", and split
  into the device name (chars 0 to 7) and the RF address (chars 8 to 17).
 */
module Reply {
  import opened Wrappers
  import Probe

  /** Size of the receive buffer; the whole buffer is decoded, unused bytes included. */
  const BufferSize := 15000

  /** The prefix that marks a reply from a cube. */
  const Magic: string := "eQ3Max"

  /** End of the name field, start of the RF address field. */
  const NameEnd := 8

  /** End of the RF address field. */
  const RfAddressEnd := 18

  /** What `trim` removes: every char at or below the space, NUL included. */
  predicate IsPadding(c: char) {
    c <= ' '
  }

  ghost predicate AllPadding(s: string) {
    forall k :: 0 <= k < |s| ==> IsPadding(s[k])
  }

  /** First index at or after `st` that is not padding (or the end): the first loop of `trim`. */
  function TrimStart(s: string, st: nat): (r: nat)
    requires st <= |s|
    ensures st <= r <= |s|
    ensures forall k :: st <= k < r ==> IsPadding(s[k])
    ensures r < |s| ==> !IsPadding(s[r])
    decreases |s| - st
  {
    if st < |s| && IsPadding(s[st]) then TrimStart(s, st + 1) else st
  }

  /** End after dropping trailing padding from `s[..len]`, never below `st`: the second loop of `trim`. */
  function TrimEnd(s: string, st: nat, len: nat): (r: nat)
    requires st <= len <= |s|
    ensures st <= r <= len
    ensures forall k :: r <= k < len ==> IsPadding(s[k])
    ensures st < r ==> !IsPadding(s[r - 1])
    decreases len
  {
    if st < len && IsPadding(s[len - 1]) then TrimEnd(s, st, len - 1) else len
  }

  /** `s[a..b]` is `s` with its leading and trailing padding removed. */
  ghost predicate TrimmedAt(s: string, a: int, b: int) {
    && 0 <= a <= b <= |s|
    && (forall k :: 0 <= k < a ==> IsPadding(s[k]))
    && (forall k :: b <= k < |s| ==> IsPadding(s[k]))
    && (a < b ==> !IsPadding(s[a]) && !IsPadding(s[b - 1]))
  }

  /** Java's `String.trim`: drops leading and trailing chars at or below the space. */
  function Trim(s: string): (r: string)
    ensures exists a, b :: TrimmedAt(s, a, b) && r == s[a..b]
  {
    var st := TrimStart(s, 0);
    var len := TrimEnd(s, st, |s|);
    assert TrimmedAt(s, st, len);
    s[st..len]
  }

  /** The bounds `Trim` computes satisfy `TrimmedAt`. */
  lemma TrimComputes(s: string)
    ensures TrimmedAt(s, TrimStart(s, 0), TrimEnd(s, TrimStart(s, 0), |s|))
    ensures Trim(s) == s[TrimStart(s, 0)..TrimEnd(s, TrimStart(s, 0), |s|)]
  {
  }

  /** Only one slice of `s` is `s` trimmed, so `Trim` is determined by `TrimmedAt`. */
  lemma TrimmedAtUnique(s: string, a: int, b: int)
    requires TrimmedAt(s, a, b)
    ensures Trim(s) == s[a..b]
  {
    var st := TrimStart(s, 0);
    var len := TrimEnd(s, st, |s|);
    assert Trim(s) == s[st..len];
    if a < b {
      assert st == a;
      assert len == b;
    } else {
      assert st == |s|;
    }
  }

  /** Trimming twice is trimming once. */
  lemma TrimIdempotent(s: string)
    ensures Trim(Trim(s)) == Trim(s)
  {
    var r := Trim(s);
    assert TrimmedAt(r, 0, |r|);
    TrimmedAtUnique(r, 0, |r|);
  }

  /** Padding put in front shifts the trimmed slice without changing it. */
  lemma TrimmedAtAfterPadding(p: string, m: string, a: int, b: int)
    requires AllPadding(p) && TrimmedAt(m, a, b)
    ensures TrimmedAt(p + m, |p| + a, |p| + b)
  {
    var s := p + m;
    forall k | 0 <= k < |p| + a ensures IsPadding(s[k]) {
      if k >= |p| {
        assert s[k] == m[k - |p|];
      }
    }
    forall k | |p| + b <= k < |s| ensures IsPadding(s[k]) {
      assert s[k] == m[k - |p|];
    }
    if a < b {
      assert s[|p| + a] == m[a] && s[|p| + b - 1] == m[b - 1];
    }
  }

  /** Padding put behind leaves the trimmed slice where it was. */
  lemma TrimmedAtBeforePadding(m: string, q: string, a: int, b: int)
    requires AllPadding(q) && TrimmedAt(m, a, b)
    ensures TrimmedAt(m + q, a, b)
  {
    var s := m + q;
    forall k | 0 <= k < a ensures IsPadding(s[k]) {
      assert s[k] == m[k];
    }
    forall k | b <= k < |s| ensures IsPadding(s[k]) {
      if k >= |m| {
        assert s[k] == q[k - |m|];
      } else {
        assert s[k] == m[k];
      }
    }
    if a < b {
      assert s[a] == m[a] && s[b - 1] == m[b - 1];
    }
  }

  /** Padding added on either side does not change the trimmed text. */
  lemma TrimIgnoresPadding(p: string, m: string, q: string)
    requires AllPadding(p) && AllPadding(q)
    ensures Trim(p + m + q) == Trim(m)
  {
    var a := TrimStart(m, 0);
    var b := TrimEnd(m, a, |m|);
    TrimComputes(m);
    TrimPaddedSlice(p, m, q, a, b);
    SliceOfMiddle(p, m, q, a, b);
  }

  /** Trimming `p + m + q` finds the slice of `m` that trimming `m` finds. */
  lemma TrimPaddedSlice(p: string, m: string, q: string, a: int, b: int)
    requires AllPadding(p) && AllPadding(q) && TrimmedAt(m, a, b)
    ensures Trim(p + m + q) == (p + m + q)[|p| + a..|p| + b]
  {
    TrimmedAtAfterPadding(p, m, a, b);
    TrimmedAtBeforePadding(p + m, q, |p| + a, |p| + b);
    TrimmedAtUnique(p + m + q, |p| + a, |p| + b);
  }

  /** A slice of the middle part, read in the padded text. */
  lemma SliceOfMiddle(p: string, m: string, q: string, a: int, b: int)
    requires 0 <= a <= b <= |m|
    ensures (p + m + q)[|p| + a..|p| + b] == m[a..b]
  {
    var s := p + m + q;
    assert s[|p| + a..|p| + b] == m[a..b] by {
      forall k | 0 <= k < b - a ensures s[|p| + a..|p| + b][k] == m[a..b][k] {
        assert s[|p| + a + k] == m[a + k];
      }
    }
  }

  function Zeros(n: nat): (z: string)
    ensures |z| == n && AllPadding(z)
  {
    seq(n, _ => '\0')
  }

  /**
    The text the receive buffer decodes to: the datagram's bytes followed by the zero bytes
    the datagram did not fill; a longer datagram is cut at the buffer size.
   */
  function ReceiveBuffer(data: string): (buf: string)
    ensures |buf| == BufferSize
    ensures |data| <= BufferSize ==> buf[..|data|] == data && AllPadding(buf[|data|..])
    ensures |data| > BufferSize ==> buf == data[..BufferSize]
  {
    if |data| <= BufferSize then data + Zeros(BufferSize - |data|) else data[..BufferSize]
  }

  /** The unused part of the buffer never reaches the trimmed message. */
  lemma ReceiveBufferTrim(data: string)
    requires |data| <= BufferSize
    ensures Trim(ReceiveBuffer(data)) == Trim(data)
  {
    var z := Zeros(BufferSize - |data|);
    assert [] + data + z == ReceiveBuffer(data);
    TrimIgnoresPadding([], data, z);
  }

  predicate StartsWith(s: string, prefix: string) {
    |prefix| <= |s| && s[..|prefix|] == prefix
  }

  /** The two fields read from an accepted reply. */
  datatype CubeInfo = CubeInfo(name: string, rfAddress: string)

  /**
    Outcome of the reply check: not a cube, or a cube whose fields were read (`Some`) or
    whose message was too short to read them (`None`, the `substring` exception).
   */
  datatype ReplyCheck = NotCube | Cube(info: Option<CubeInfo>)

  /** Trim the decoded buffer, test the magic prefix, and read the name and RF address. */
  function CheckReply(buffer: string): (r: ReplyCheck)
    ensures r.Cube? <==> StartsWith(Trim(buffer), Magic)
    ensures r == Cube(None) <==> StartsWith(Trim(buffer), Magic) && |Trim(buffer)| < RfAddressEnd
    ensures r.Cube? && r.info.Some? ==>
      var m := Trim(buffer);
      && |r.info.value.name| == NameEnd && |r.info.value.rfAddress| == RfAddressEnd - NameEnd
      && StartsWith(r.info.value.name, Magic)
      && m == r.info.value.name + r.info.value.rfAddress + m[RfAddressEnd..]
  {
    var message := Trim(buffer);
    if !StartsWith(message, Magic) then NotCube
    // substring(0, 8) or substring(8, 18) throws: the fields are never read
    else if |message| < RfAddressEnd then Cube(None)
    else Cube(Some(CubeInfo(message[..NameEnd], message[NameEnd..RfAddressEnd])))
  }

  /** A reply as a cube sends it: the name, the RF address, then anything else. */
  function FormatReply(info: CubeInfo, tail: string): string {
    info.name + info.rfAddress + tail
  }

  /**
    Round trip: a well-formed reply that fits the buffer and does not end in padding is
    read back as exactly the name and RF address it carries.
   */
  lemma ReplyRoundTrip(info: CubeInfo, tail: string)
    requires |info.name| == NameEnd && StartsWith(info.name, Magic)
    requires |info.rfAddress| == RfAddressEnd - NameEnd
    requires |FormatReply(info, tail)| <= BufferSize
    requires !IsPadding(FormatReply(info, tail)[|FormatReply(info, tail)| - 1])
    ensures CheckReply(ReceiveBuffer(FormatReply(info, tail))) == Cube(Some(info))
  {
    var f := FormatReply(info, tail);
    FormattedReplyUntrimmed(info, tail);
    FormattedReplyFields(info, tail);
    ReceiveBufferTrim(f);
    CheckReplyFields(ReceiveBuffer(f), f);
  }

  /** A well-formed reply starts with the magic and carries its fields where they are read. */
  lemma FormattedReplyFields(info: CubeInfo, tail: string)
    requires |info.name| == NameEnd && StartsWith(info.name, Magic)
    requires |info.rfAddress| == RfAddressEnd - NameEnd
    ensures var f := FormatReply(info, tail);
      StartsWith(f, Magic) && |f| >= RfAddressEnd &&
      f[..NameEnd] == info.name && f[NameEnd..RfAddressEnd] == info.rfAddress
  {
    var f := FormatReply(info, tail);
    assert f[..|Magic|] == info.name[..|Magic|];
    assert f[..NameEnd] == info.name;
    assert f[NameEnd..RfAddressEnd] == info.rfAddress;
  }

  /** An accepted message of at least eighteen chars yields its first eight and next ten chars. */
  lemma CheckReplyFields(buffer: string, m: string)
    requires Trim(buffer) == m && StartsWith(m, Magic) && |m| >= RfAddressEnd
    ensures CheckReply(buffer) == Cube(Some(CubeInfo(m[..NameEnd], m[NameEnd..RfAddressEnd])))
  {
  }

  /** A well-formed reply has nothing for `trim` to remove. */
  lemma FormattedReplyUntrimmed(info: CubeInfo, tail: string)
    requires |info.name| == NameEnd && StartsWith(info.name, Magic)
    requires !IsPadding(FormatReply(info, tail)[|FormatReply(info, tail)| - 1])
    ensures Trim(FormatReply(info, tail)) == FormatReply(info, tail)
  {
    var f := FormatReply(info, tail);
    assert Magic == "eQ3Max";
    assert f[0] == info.name[0] == 'e';
    assert TrimmedAt(f, 0, |f|);
    TrimmedAtUnique(f, 0, |f|);
  }

  /** Leading padding before the magic does not stop a reply from being accepted. */
  lemma LeadingPaddingAccepted(p: string, data: string)
    requires AllPadding(p)
    ensures CheckReply(p + data) == CheckReply(data)
  {
    assert p + data + [] == p + data;
    TrimIgnoresPadding(p, data, []);
  }

  /** A datagram from a cube named "eQ3Max01" with RF address "ABCDEFGHIJ". */
  lemma ExampleReplyParsed()
    ensures CheckReply(ReceiveBuffer("eQ3Max01ABCDEFGHIJ")) == Cube(Some(CubeInfo("eQ3Max01", "ABCDEFGHIJ")))
  {
    var info := CubeInfo("eQ3Max01", "ABCDEFGHIJ");
    assert FormatReply(info, []) == "eQ3Max01ABCDEFGHIJ";
    ReplyRoundTrip(info, []);
  }

  /** A reply that is just the magic is accepted, but too short for its fields to be read. */
  lemma ShortReplyAccepted()
    ensures CheckReply(ReceiveBuffer(Magic)) == Cube(None)
  {
    MagicUntrimmed();
    ReceiveBufferTrim(Magic);
    CheckReplyShort(ReceiveBuffer(Magic), Magic);
  }

  /** The magic alone has nothing for `trim` to remove. */
  lemma MagicUntrimmed()
    ensures Trim(Magic) == Magic
  {
    assert Magic == "eQ3Max";
    assert TrimmedAt(Magic, 0, |Magic|);
    TrimmedAtUnique(Magic, 0, |Magic|);
  }

  /** An accepted message shorter than eighteen chars yields no fields. */
  lemma CheckReplyShort(buffer: string, m: string)
    requires Trim(buffer) == m && StartsWith(m, Magic) && |m| < RfAddressEnd
    ensures CheckReply(buffer) == Cube(None)
  {
  }

  /** An empty datagram leaves the buffer all zeros, which trims to nothing: no cube. */
  lemma EmptyReplyRejected()
    ensures CheckReply(ReceiveBuffer([])) == NotCube
  {
    ReceiveBufferTrim([]);
    assert TrimmedAt([], 0, 0);
    TrimmedAtUnique([], 0, 0);
  }

  /**
    The probe itself passes the check: were it read back on the discovery port, it would be
    taken for a cube named "eQ3Max*\0" with RF address "**********".
   */
  lemma ProbeEchoAccepted()
    ensures CheckReply(ReceiveBuffer(Probe.ProbePayload)) == Cube(Some(CubeInfo("eQ3Max*\0", "**********")))
  {
    var info := CubeInfo("eQ3Max*\0", "**********");
    assert Probe.ProbePayload == FormatReply(info, "I");
    ReplyRoundTrip(info, "I");
  }
}
