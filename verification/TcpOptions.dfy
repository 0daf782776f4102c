/** The TCP option area: the parsing loop, the option list it denotes and the encoder of such lists. */
module TcpOptions {
  import opened Outcomes
  import opened Binary

  const END: byte := 0
  const NOP: byte := 1
  const MSS: byte := 2
  const WINDOW_SCALE: byte := 3
  const SACK_PERMITTED: byte := 4

  /** A no-operation byte, or a kind with a length byte and `|body|` further bytes. */
  datatype TcpOption = Padding | Field(kind: byte, body: Bytes)

  predicate WellFormed(o: TcpOption) {
    o.Field? ==> o.kind != END && o.kind != NOP && |o.body| + 2 < 256
  }

  ghost predicate AllWellFormed(os: seq<TcpOption>) {
    os != [] ==> WellFormed(os[0]) && AllWellFormed(os[1..])
  }

  function EncodeOption(o: TcpOption): (s: Bytes)
    requires WellFormed(o)
    ensures s != []
  {
    match o
    case Padding => [NOP]
    case Field(kind, body) => [kind, |body| + 2] + body
  }

  ghost function EncodeOptions(os: seq<TcpOption>): Bytes
    requires AllWellFormed(os)
  {
    if os == [] then [] else EncodeOption(os[0]) + EncodeOptions(os[1..])
  }

  lemma EncodeUnfold(os: seq<TcpOption>, tail: Bytes)
    requires os != [] && AllWellFormed(os)
    ensures EncodeOptions(os) + tail == EncodeOption(os[0]) + (EncodeOptions(os[1..]) + tail)
  {
    Assoc(EncodeOption(os[0]), EncodeOptions(os[1..]), tail);
  }

  /** What may follow the last option: nothing, or the end-of-list byte and arbitrary padding. */
  predicate Terminated(tail: Bytes) {
    tail == [] || tail[0] == END
  }

  /** The window shift announced by one option, if it is a well-sized window-scale option. */
  function ScaleOf(o: TcpOption): Option<byte> {
    if o.Field? && o.kind == WINDOW_SCALE && |o.body| == 1 then Some(o.body[0]) else None
  }

  /** The last announced window shift wins; `scale` is the one known so far. */
  function LastScale(os: seq<TcpOption>, scale: Option<byte>): Option<byte> {
    if os == [] then scale
    else LastScale(os[1..], if ScaleOf(os[0]).Some? then ScaleOf(os[0]) else scale)
  }

  /** A window-scale option, kind 3 with one byte of data (section 2.2 of RFC 7323). */
  predicate AnnouncesShift(o: TcpOption) {
    o.Field? && o.kind == 3 && |o.body| == 1
  }

  /** Option `k` of the list announces a shift and none after it does. */
  predicate IsLastShift(os: seq<TcpOption>, k: nat) {
    k < |os| && AnnouncesShift(os[k]) && forall j :: k < j < |os| ==> !AnnouncesShift(os[j])
  }

  /** The shift found is that of the last option that announces one, or the one known before the list. */
  lemma {:induction false} LastScaleByIndex(os: seq<TcpOption>, scale: Option<byte>)
    ensures forall k: nat :: IsLastShift(os, k) ==> LastScale(os, scale) == Some(os[k].body[0])
    ensures (exists k: nat :: IsLastShift(os, k)) <==> exists j: nat :: j < |os| && AnnouncesShift(os[j])
    ensures (forall j :: 0 <= j < |os| ==> !AnnouncesShift(os[j])) ==> LastScale(os, scale) == scale
  {
    if os != [] {
      var rest := os[1..];
      var next := if ScaleOf(os[0]).Some? then ScaleOf(os[0]) else scale;
      LastScaleByIndex(rest, next);
      forall k: nat | IsLastShift(os, k)
        ensures LastScale(os, scale) == Some(os[k].body[0])
      {
        if k > 0 {
          assert rest[k - 1] == os[k];
          assert forall j :: k - 1 < j < |rest| ==> rest[j] == os[j + 1];
          assert IsLastShift(rest, k - 1);
        } else {
          assert forall j :: 0 <= j < |rest| ==> rest[j] == os[j + 1];
        }
      }
      if j: nat :| j < |os| && AnnouncesShift(os[j]) {
        LastShiftExists(os, j);
      }
      if forall j :: 0 <= j < |os| ==> !AnnouncesShift(os[j]) {
        assert forall j :: 0 <= j < |rest| ==> rest[j] == os[j + 1];
      }
    }
  }

  lemma {:induction false} LastShiftExists(os: seq<TcpOption>, j: nat)
    requires j < |os| && AnnouncesShift(os[j])
    ensures exists k: nat :: IsLastShift(os, k)
    decreases |os| - j
  {
    if i: nat :| j < i < |os| && AnnouncesShift(os[i]) {
      LastShiftExists(os, i);
    } else {
      assert IsLastShift(os, j);
    }
  }

  /** The bytes on the wire: one byte 1 of padding, then kind 3 with shift 7, then the end and what follows it. */
  lemma OptionBytes(tail: Bytes)
    ensures WindowScale([1, 3, 3, 7, 0] + tail) == Ok(Some(7))
    ensures WindowScale([3, 4, 7, 7, 0] + tail) == Ok(None)
    ensures WindowScale([2, 1] + tail).Failure? && WindowScale([0] + tail) == Ok(None)
  {
    var end: Bytes := [0] + tail;
    assert Tokens(end) == Ok([]);
    var shift, wide := Field(3, [7]), Field(3, [7, 7]);
    TokensCons(shift, end);
    TokensCons(Padding, EncodeOption(shift) + end);
    TokensCons(wide, end);
    assert [1, 3, 3, 7, 0] + tail == EncodeOption(Padding) + (EncodeOption(shift) + end);
    assert [3, 4, 7, 7, 0] + tail == EncodeOption(wide) + end;
    var found, other := [Padding] + ([shift] + []), [wide] + [];
    assert found[1..] == [shift] && found[1..][1..] == [] && other[1..] == [];
    assert LastScale([shift], None) == Some(7) by {
      assert [shift][1..] == [];
    }
    assert LastScale([wide], None) == None by {
      assert [wide][1..] == [];
    }
    assert [wide] + [] == [wide];
  }

  /** The option list an area denotes; `Failure` where the loop would throw. */
  function Tokens(area: Bytes): Outcome<seq<TcpOption>> {
    if area == [] || area[0] == END then Ok([])
    else if area[0] == NOP then
      var rest :- Tokens(area[1..]);
      Ok([Padding] + rest)
    else if |area| < 2 || area[1] < 2 || area[1] > |area| then Failure
    else
      var rest :- Tokens(area[area[1]..]);
      Ok([Field(area[0], area[2..area[1]])] + rest)
  }

  function WindowScale(area: Bytes): Outcome<Option<byte>> {
    var os :- Tokens(area);
    Ok(LastScale(os, None))
  }

  /** One option at the head of an area is read as one token. */
  lemma TokensCons(o: TcpOption, rest: Bytes)
    requires WellFormed(o)
    ensures Tokens(EncodeOption(o) + rest).Ok? <==> Tokens(rest).Ok?
    ensures Tokens(rest).Ok? ==> Tokens(EncodeOption(o) + rest).value == [o] + Tokens(rest).value
  {
    var area := EncodeOption(o) + rest;
    assert area[|EncodeOption(o)|..] == rest;
    if o.Field? {
      assert area[2..area[1]] == o.body;
    }
  }

  lemma TokensFirst(os: seq<TcpOption>, rest: Bytes)
    requires os != [] && WellFormed(os[0]) && Tokens(rest) == Ok(os[1..])
    ensures Tokens(EncodeOption(os[0]) + rest) == Ok(os)
  {
    TokensCons(os[0], rest);
    hide Tokens;
    assert os == [os[0]] + os[1..];
  }

  /** Every encoded option list is read back as written, whatever follows its end. */
  lemma {:induction false} TokensOfEncoding(os: seq<TcpOption>, tail: Bytes)
    requires AllWellFormed(os) && Terminated(tail)
    ensures Tokens(EncodeOptions(os) + tail) == Ok(os)
  {
    if os == [] {
      assert EncodeOptions(os) + tail == tail;
    } else {
      hide Tokens;
      TokensOfEncoding(os[1..], tail);
      EncodeUnfold(os, tail);
      hide EncodeOptions;
      hide EncodeOption;
      TokensFirst(os, EncodeOptions(os[1..]) + tail);
    }
  }

  /** A nonempty area that parses starts with its first option. */
  lemma FirstToken(area: Bytes) returns (rest: Bytes)
    requires Tokens(area).Ok? && Tokens(area).value != []
    ensures WellFormed(Tokens(area).value[0])
    ensures area == EncodeOption(Tokens(area).value[0]) + rest
    ensures Tokens(rest) == Ok(Tokens(area).value[1..])
  {
    var n := if area[0] == NOP then 1 else area[1];
    rest := area[n..];
    assert EncodeOption(Tokens(area).value[0]) == area[..n];
  }

  /** An area that parses is the encoding of the list found, followed by a legal end. */
  lemma {:induction false} EncodingOfTokens(area: Bytes) returns (tail: Bytes)
    requires Tokens(area).Ok?
    ensures AllWellFormed(Tokens(area).value) && Terminated(tail)
    ensures area == EncodeOptions(Tokens(area).value) + tail
  {
    if Tokens(area).value == [] {
      tail := area;
    } else {
      hide Tokens;
      var rest := FirstToken(area);
      tail := EncodingOfTokens(rest);
      EncodeUnfold(Tokens(area).value, tail);
      hide EncodeOptions;
      hide EncodeOption;
    }
  }

  /** So the parser succeeds exactly on encoded option lists. */
  lemma ParsesExactlyEncodings(area: Bytes)
    ensures Tokens(area).Ok? <==>
            exists os: seq<TcpOption>, tail: Bytes ::
              AllWellFormed(os) && Terminated(tail) && area == EncodeOptions(os) + tail
  {
    if Tokens(area).Ok? {
      var tail := EncodingOfTokens(area);
    }
    forall os: seq<TcpOption>, tail: Bytes |
      AllWellFormed(os) && Terminated(tail) && area == EncodeOptions(os) + tail
      ensures Tokens(area).Ok?
    {
      TokensOfEncoding(os, tail);
    }
  }

  /** The loop of `parse_options` over the bytes between the fixed header and the data offset. */
  method ParseOptions(area: Bytes) returns (scale: Outcome<Option<byte>>)
    ensures scale == WindowScale(area)
  {
    var offset := 0;
    var found: Option<byte> := None;
    while offset < |area|
      invariant 0 <= offset <= |area|
      invariant Tokens(area).Ok? <==> Tokens(area[offset..]).Ok?
      invariant Tokens(area).Ok? ==>
        LastScale(Tokens(area).value, None) == LastScale(Tokens(area[offset..]).value, found)
    {
      var kind := area[offset];
      if kind == END {
        break;
      }
      if kind == NOP {
        assert area[offset..][1..] == area[offset + 1..];
        offset := offset + 1;
        continue;
      }
      if offset + 2 > |area| {
        return Failure;
      }
      var length := area[offset + 1];
      if !(length >= 2 && offset + length <= |area|) {
        return Failure;
      }
      assert area[offset..][length..] == area[offset + length..];
      assert area[offset..][2..length] == area[offset + 2..offset + length];
      if kind == WINDOW_SCALE && length == 3 {
        found := Some(area[offset + 2]);
      }
      offset := offset + length;
    }
    return Ok(found);
  }

  /** The block the client sends with its own SYN: maximum segment size 1460, selective
      acknowledgement permitted, window shift 0, end of list and padding. */
  const DEFAULT_BLOCK: Bytes := [MSS, 4, 5, 180, SACK_PERMITTED, 2, WINDOW_SCALE, 3, 0, END, 0, 0]

  lemma DefaultBlockAnnouncesShiftZero()
    ensures WindowScale(DEFAULT_BLOCK) == Ok(Some(0))
    ensures |DEFAULT_BLOCK| == 12 && Value(DEFAULT_BLOCK[2..4]) == 1460
    ensures Tokens(DEFAULT_BLOCK) == Ok([Field(2, [5, 180]), Field(4, []), Field(3, [0])])
  {
    var mss, sack, scale := Field(MSS, [5, 180]), Field(SACK_PERMITTED, []), Field(WINDOW_SCALE, [0]);
    var tail: Bytes := [END, 0, 0];
    var os := [mss, sack, scale];
    assert os[1..] == [sack, scale] && os[1..][1..] == [scale] && os[1..][1..][1..] == [];
    assert AllWellFormed([scale]) && AllWellFormed([sack, scale]);
    assert EncodeOptions([scale]) == EncodeOption(scale) + EncodeOptions([]);
    assert EncodeOptions([sack, scale]) == EncodeOption(sack) + EncodeOptions([scale]);
    assert EncodeOptions(os) + tail == DEFAULT_BLOCK;
    TokensOfEncoding(os, tail);
    assert LastScale(os, None) == LastScale([sack, scale], None) == LastScale([scale], None) == Some(0);
    assert DEFAULT_BLOCK[2..4] == [5, 180];
    assert Value([5, 180]) == 256 * Value([5]) + 180 by {
      assert [5, 180][..1] == [5];
    }
    assert Value([5]) == 5;
  }
}
