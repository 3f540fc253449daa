/**
 * The input-method data of src/ime.rs: composition strings paired with
 * their clause attributes, candidate lists, the enabled flag of an input
 * context, and the decoding of what `ImmGetCompositionStringW` returns (its
 * replies are inputs here).
 */
module Ime {
  import opened Common
  import opened Win32

  type Byte = b: nat | b < 0x100
  type Unit16 = u: nat | u < 0x1_0000

  // ---------------------------------------------------------------------
  // Attributes
  // ---------------------------------------------------------------------

  /** `Attribute`: how a character of the composition string is converted. */
  datatype Attribute = Input | TargetConverted | Converted | TargetNotConverted | Error | FixedConverted

  /** The `ATTR_*` byte of each attribute (imm.h). */
  function AttrToByte(a: Attribute): Byte {
    match a
    case Input => 0x00
    case TargetConverted => 0x01
    case Converted => 0x02
    case TargetNotConverted => 0x03
    case Error => 0x04
    case FixedConverted => 0x05
  }

  /** The `match` of `get_attrs`; any other byte hits `unreachable!()`,
      which is `None` here. */
  function AttrFromByte(v: Byte): (r: Option<Attribute>)
    ensures r.Some? <==> v <= 5
  {
    if v == 0x00 then Some(Input)
    else if v == 0x01 then Some(TargetConverted)
    else if v == 0x02 then Some(Converted)
    else if v == 0x03 then Some(TargetNotConverted)
    else if v == 0x04 then Some(Error)
    else if v == 0x05 then Some(FixedConverted)
    else None
  }

  /** The six bytes map to six distinct attributes and back. */
  lemma AttrRoundTrip(a: Attribute, v: Byte)
    ensures AttrFromByte(AttrToByte(a)) == Some(a)
    ensures AttrFromByte(v).Some? ==> AttrToByte(AttrFromByte(v).value) == v
  {
  }

  // ---------------------------------------------------------------------
  // Composition and candidate list
  // ---------------------------------------------------------------------

  datatype CompositionChar = CompositionChar(c: char, attr: Attribute)

  datatype Composition = Composition(chars: seq<CompositionChar>)

  function Min(a: nat, b: nat): nat {
    if a <= b then a else b
  }

  /** `Composition::new`: `s.chars().zip(attrs)`, which stops at the
      shorter of the two. */
  function NewComposition(s: string, attrs: seq<Attribute>): (r: Composition)
    ensures |r.chars| == Min(|s|, |attrs|)
    ensures forall i :: 0 <= i < |r.chars| ==> r.chars[i] == CompositionChar(s[i], attrs[i])
    decreases |s|
  {
    if s == [] || attrs == [] then Composition([])
    else Composition([CompositionChar(s[0], attrs[0])] + NewComposition(s[1..], attrs[1..]).chars)
  }

  predicate CompositionIsEmpty(c: Composition) {
    |c.chars| == 0
  }

  function CompositionLen(c: Composition): nat {
    |c.chars|
  }

  /** `Index<usize> for Composition`; indexing out of range panics, so the
      index must be in range. */
  function CompositionAt(c: Composition, i: nat): CompositionChar
    requires i < |c.chars|
  {
    c.chars[i]
  }

  /** A composition is empty exactly when the string or the attribute list
      is, and its i-th entry pairs the i-th character with the i-th
      attribute. */
  lemma CompositionAccessors(s: string, attrs: seq<Attribute>, i: nat)
    ensures CompositionIsEmpty(NewComposition(s, attrs)) <==> s == [] || attrs == []
    ensures CompositionLen(NewComposition(s, attrs)) <= |s|
    ensures i < |s| && i < |attrs| ==> CompositionAt(NewComposition(s, attrs), i) == CompositionChar(s[i], attrs[i])
  {
  }

  /** `CandidateList`: the candidate strings and the selected index, stored
      as given. */
  datatype CandidateList = CandidateList(list: seq<string>, selection: nat)

  predicate CandidatesIsEmpty(c: CandidateList) {
    |c.list| == 0
  }

  function CandidatesLen(c: CandidateList): nat {
    |c.list|
  }

  function CandidatesSelection(c: CandidateList): nat {
    c.selection
  }

  /** `Index<usize> for CandidateList`; indexing out of range panics, so
      the index must be in range. */
  function CandidatesAt(c: CandidateList, i: nat): string
    requires i < |c.list|
  {
    c.list[i]
  }

  /** A candidate list built from `list` and `selection` is empty exactly
      when `list` is, counts its strings, gives back the i-th one and keeps
      the selection. */
  lemma CandidateAccessors(list: seq<string>, selection: nat, i: nat)
    ensures CandidatesIsEmpty(CandidateList(list, selection)) <==> list == []
    ensures CandidatesIsEmpty(CandidateList(list, selection)) <==> CandidatesLen(CandidateList(list, selection)) == 0
    ensures CandidatesLen(CandidateList(list, selection)) == |list|
    ensures i < |list| ==> CandidatesAt(CandidateList(list, selection), i) == list[i]
    ensures CandidatesSelection(CandidateList(list, selection)) == selection
  {
  }

  // ---------------------------------------------------------------------
  // UTF-16
  // ---------------------------------------------------------------------

  const Replacement: char := '\U{FFFD}'

  predicate IsHighSurrogate(u: Unit16) {
    0xD800 <= u <= 0xDBFF
  }

  predicate IsLowSurrogate(u: Unit16) {
    0xDC00 <= u <= 0xDFFF
  }

  /** `String::from_utf16_lossy`: a surrogate pair becomes one character,
      any other surrogate becomes U+FFFD. */
  function Utf16Lossy(u: seq<Unit16>): (s: string)
    ensures |s| <= |u|
    ensures |s| == 0 <==> |u| == 0
    decreases |u|
  {
    if u == [] then []
    else if !IsHighSurrogate(u[0]) && !IsLowSurrogate(u[0]) then [u[0] as char] + Utf16Lossy(u[1..])
    else if IsHighSurrogate(u[0]) && |u| >= 2 && IsLowSurrogate(u[1]) then
      [(0x1_0000 + (u[0] as int - 0xD800) * 0x400 + (u[1] as int - 0xDC00)) as char] + Utf16Lossy(u[2..])
    else [Replacement] + Utf16Lossy(u[1..])
  }

  /** The UTF-16 encoding of a string, as Windows hands it over. */
  function Utf16Encode(s: string): seq<Unit16> {
    if s == [] then []
    else
      var c := s[0] as int;
      if c < 0x1_0000 then [c] + Utf16Encode(s[1..])
      else [0xD800 + (c - 0x1_0000) / 0x400, 0xDC00 + (c - 0x1_0000) % 0x400] + Utf16Encode(s[1..])
  }

  /** Lossy decoding loses nothing on well-formed UTF-16. */
  lemma {:induction false} Utf16RoundTrip(s: string)
    ensures Utf16Lossy(Utf16Encode(s)) == s
  {
    if s != [] {
      Utf16RoundTrip(s[1..]);
      var c := s[0] as int;
      var rest := Utf16Encode(s[1..]);
      if c < 0x1_0000 {
        assert Utf16Encode(s) == [c] + rest;
        assert ([c] + rest)[1..] == rest;
      } else {
        var hi := 0xD800 + (c - 0x1_0000) / 0x400;
        var lo := 0xDC00 + (c - 0x1_0000) % 0x400;
        assert Utf16Encode(s) == [hi, lo] + rest;
        assert ([hi, lo] + rest)[2..] == rest;
        assert 0x1_0000 + (hi - 0xD800) * 0x400 + (lo - 0xDC00) == c;
      }
    }
  }

  /** Little-endian 16-bit units of a byte buffer (a trailing odd byte is
      not read). */
  function Units(bytes: seq<Byte>): (u: seq<Unit16>)
    ensures |u| == |bytes| / 2
    decreases |bytes|
  {
    if |bytes| < 2 then []
    else [bytes[0] as int + 0x100 * bytes[1] as int] + Units(bytes[2..])
  }

  // ---------------------------------------------------------------------
  // ImmGetCompositionStringW replies
  // ---------------------------------------------------------------------

  /** What the two calls of `ImmGetCompositionStringW` report: the byte
      length returned by the sizing call and the bytes the second call
      writes. The function returns a byte count or one of its two error
      codes. */
  datatype Reply = Reply(byteLen: int, bytes: seq<Byte>)

  predicate WellFormedReply(r: Reply) {
    (r.byteLen == IMM_ERROR_NODATA || r.byteLen == IMM_ERROR_GENERAL || r.byteLen >= 0)
    && (r.byteLen >= 0 ==> |r.bytes| == r.byteLen)
  }

  /** The result of a query that may also panic (`unreachable!()`). */
  datatype Outcome<+T> = Nothing | Something(value: T) | Panics

  /** `get_string`: `None` on either error code or when the decoded string
      is empty; otherwise the `byte_len / 2` units, decoded lossily. */
  function GetString(r: Reply): (s: Option<string>)
    requires WellFormedReply(r)
    ensures s.Some? <==> r.byteLen >= 2
    ensures s.Some? ==> s.value == Utf16Lossy(Units(r.bytes)) && |s.value| <= r.byteLen / 2
  {
    if r.byteLen == IMM_ERROR_NODATA || r.byteLen == IMM_ERROR_GENERAL then None
    else
      var s := Utf16Lossy(Units(r.bytes));
      if |s| == 0 then None else Some(s)
  }

  /** Maps every byte to its attribute; `None` if one of them is not an
      `ATTR_*` value. */
  function DecodeAttrs(bytes: seq<Byte>): (r: Option<seq<Attribute>>)
    ensures r.Some? <==> forall i :: 0 <= i < |bytes| ==> bytes[i] <= 5
    ensures r.Some? ==> |r.value| == |bytes|
    ensures r.Some? ==> forall i :: 0 <= i < |bytes| ==> AttrToByte(r.value[i]) == bytes[i]
    decreases |bytes|
  {
    if bytes == [] then Some([])
    else
      var head := AttrFromByte(bytes[0]);
      var rest := DecodeAttrs(bytes[1..]);
      if head.Some? && rest.Some? then
        AttrRoundTrip(head.value, bytes[0]);
        Some([head.value] + rest.value)
      else
        FirstBadByte(bytes);
        None
  }

  /** A byte past the first that is out of range is a byte of the whole. */
  lemma FirstBadByte(bytes: seq<Byte>)
    requires bytes != []
    requires bytes[0] > 5 || exists j :: 0 <= j < |bytes[1..]| && bytes[1..][j] > 5
    ensures exists i :: 0 <= i < |bytes| && bytes[i] > 5
  {
    if bytes[0] <= 5 {
      var j :| 0 <= j < |bytes[1..]| && bytes[1..][j] > 5;
      assert bytes[j + 1] > 5;
    }
  }

  /** `get_attrs`: `None` on either error code, otherwise one attribute per
      byte; an unknown byte panics. */
  function GetAttrs(r: Reply): (o: Outcome<seq<Attribute>>)
    requires WellFormedReply(r)
    ensures o.Nothing? <==> r.byteLen < 0
    ensures o.Something? ==> |o.value| == r.byteLen
    ensures o.Something? ==> forall i :: 0 <= i < |o.value| ==> AttrToByte(o.value[i]) == r.bytes[i]
    ensures o.Panics? <==> r.byteLen >= 0 && exists i :: 0 <= i < |r.bytes| && r.bytes[i] > 5
  {
    if r.byteLen == IMM_ERROR_NODATA || r.byteLen == IMM_ERROR_GENERAL then Nothing
    else
      match DecodeAttrs(r.bytes)
      case Some(attrs) => Something(attrs)
      case None => Panics
  }

  /** `CompositionString`. */
  datatype CompositionString = CompStr(s: string) | CompAttr(attrs: seq<Attribute>) | ResultStr(s: string)

  /** `Imc::get_composition_string(index)`, `r` being the reply for that
      index. */
  function GetCompositionString(index: bv32, r: Reply): (o: Outcome<CompositionString>)
    requires WellFormedReply(r)
    ensures index != GCS_COMPSTR && index != GCS_COMPATTR && index != GCS_RESULTSTR ==> o.Nothing?
    ensures index == GCS_COMPSTR ==>
      o == (if GetString(r).Some? then Something(CompStr(GetString(r).value)) else Nothing)
    ensures index == GCS_RESULTSTR ==>
      o == (if GetString(r).Some? then Something(ResultStr(GetString(r).value)) else Nothing)
    ensures o.Something? && index == GCS_COMPATTR ==> GetAttrs(r).Something? && o.value == CompAttr(GetAttrs(r).value)
    ensures index == GCS_COMPATTR ==>
      o == (match GetAttrs(r)
            case Something(a) => Something(CompAttr(a))
            case Nothing => Nothing
            case Panics => Panics)
    ensures o.Panics? ==> index == GCS_COMPATTR
  {
    if index == GCS_COMPSTR then
      match GetString(r)
      case Some(s) => Something(CompStr(s))
      case None => Nothing
    else if index == GCS_COMPATTR then
      match GetAttrs(r)
      case Something(a) => Something(CompAttr(a))
      case Nothing => Nothing
      case Panics => Panics
    else if index == GCS_RESULTSTR then
      match GetString(r)
      case Some(s) => Something(ResultStr(s))
      case None => Nothing
    else Nothing
  }

  /** The string a composition query yields is the string Windows wrote. */
  lemma CompStrOfEncoded(s: string, bytes: seq<Byte>)
    requires s != []
    requires Units(bytes) == Utf16Encode(s) && |bytes| % 2 == 0
    ensures GetCompositionString(GCS_COMPSTR, Reply(|bytes|, bytes)) == Something(CompStr(s))
  {
    Utf16RoundTrip(s);
  }

  // ---------------------------------------------------------------------
  // Input context
  // ---------------------------------------------------------------------

  /** `ImmContext`: an input context of one window and whether it is
      associated with that window. The associate calls are not modelled. */
  class ImmContext {
    var enabled: bool

    /** `ImmContext::new` starts disabled. */
    constructor ()
      ensures !enabled
    {
      enabled := false;
    }

    function IsEnabled(): bool
      reads this
    {
      enabled
    }

    method Enable()
      modifies this
      ensures IsEnabled()
    {
      enabled := true;
    }

    method Disable()
      modifies this
      ensures !IsEnabled()
    {
      enabled := false;
    }
  }
}
