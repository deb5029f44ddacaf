/**
 * `OpcUaClient.Model.OpcValue`: a value read from or written to a server
 * node, with its OPC UA StatusCode and the derived "good" flag.
 */
module Model {
  import opened Wrappers
  import opened NumberFormat

  /**
   * Severity of an OPC UA StatusCode: its two most significant bits
   * (section 7.34 of OPC UA Part 4): 0 Good, 1 Uncertain, 2 Bad, 3 reserved.
   */
  function Severity(code: uint32): (s: int)
    ensures 0 <= s <= 3
  {
    code as int / 0x4000_0000
  }

  /** `StatusCode.IsGood`: the severity bits are 00. */
  predicate IsGood(code: uint32)
  {
    Severity(code) == 0
  }

  /** Good codes are exactly those below 0x40000000; Uncertain and Bad codes are never good. */
  lemma GoodCodes(code: uint32)
    ensures IsGood(code) <==> code < 0x4000_0000
    ensures code >= 0x8000_0000 ==> !IsGood(code)
  {
  }

  /**
   * The `object Value` of an OpcValue, by the three cases `ValueStr`
   * distinguishes. `Other` is any other object, carrying the text of its
   * own `ToString()`, which this model treats as given.
   */
  datatype Value = Null | Bytes(bytes: seq<uint8>) | Text(text: string) | Other(rendered: string)

  /** The hex dump of a byte array: one "XX " group per byte. */
  function HexDump(bytes: seq<uint8>): string
  {
    if bytes == [] then "" else HexDump(bytes[..|bytes| - 1]) + X2(bytes[|bytes| - 1]) + " "
  }

  /** Character layout of the hex dump: 3n characters, byte i at 3i (high digit), 3i+1 (low digit), 3i+2 (space). */
  lemma {:induction false} HexDumpLayout(bytes: seq<uint8>)
    ensures |HexDump(bytes)| == 3 * |bytes|
    ensures forall i :: 0 <= i < |bytes| ==>
      HexDump(bytes)[3 * i] == HexDigit(Hi(bytes[i])) &&
      HexDump(bytes)[3 * i + 1] == HexDigit(Lo(bytes[i])) &&
      HexDump(bytes)[3 * i + 2] == ' '
  {
    if bytes != [] {
      var init := bytes[..|bytes| - 1];
      HexDumpLayout(init);
      forall i | 0 <= i < |bytes|
        ensures HexDump(bytes)[3 * i] == HexDigit(Hi(bytes[i]))
        ensures HexDump(bytes)[3 * i + 1] == HexDigit(Lo(bytes[i]))
        ensures HexDump(bytes)[3 * i + 2] == ' '
      {
        if i < |init| {
          assert bytes[i] == init[i];
        }
      }
    }
  }

  /** Reads a hex dump back: groups of two hexadecimal digits followed by a space. */
  function ParseHexDump(s: string): Option<seq<uint8>>
    decreases |s|
  {
    if |s| == 0 then Some([])
    else if |s| < 3 || s[|s| - 1] != ' ' then None
    else
      match (ParseHexDump(s[..|s| - 3]), HexDigitValue(s[|s| - 3]), HexDigitValue(s[|s| - 2]))
      case (Some(init), Some(hi), Some(lo)) => Some(init + [(16 * hi + lo) as uint8])
      case _ => None
  }

  /** The hex dump loses nothing: reading it back gives the bytes. */
  lemma {:induction false} HexDumpRoundTrip(bytes: seq<uint8>)
    ensures ParseHexDump(HexDump(bytes)) == Some(bytes)
  {
    if bytes != [] {
      var init, last := bytes[..|bytes| - 1], bytes[|bytes| - 1];
      assert HexDump(bytes) == HexDump(init) + X2(last) + " ";
      HexDumpRoundTrip(init);
      ParseGroup(HexDump(init), last);
      assert ParseHexDump(HexDump(bytes)) == Some(init + [last]);
      assert init + [last] == bytes;
    }
  }

  /** Reading a text followed by one "XX " group reads the text, then the byte. */
  lemma ParseGroup(prefix: string, b: uint8)
    ensures ParseHexDump(prefix + X2(b) + " ") ==
      match ParseHexDump(prefix)
      case Some(init) => Some(init + [b])
      case None => None
  {
    var t := prefix + X2(b) + " ";
    assert t[..|t| - 3] == prefix;
    assert t[|t| - 3] == HexDigit(Hi(b)) && t[|t| - 2] == HexDigit(Lo(b)) && t[|t| - 1] == ' ';
    HexDigitRoundTrip(Hi(b));
    HexDigitRoundTrip(Lo(b));
    assert (16 * Hi(b) + Lo(b)) as uint8 == b;
  }

  /** The text `ValueStr` yields, or `None` where it throws (a null value). */
  function Render(v: Value): Option<string>
  {
    match v
    case Null => None
    case Bytes(b) => Some(HexDump(b))
    case Text(t) => Some(t)
    case Other(r) => Some(r)
  }

  /** C#'s rendering of a `bool`. */
  function BoolText(b: bool): string
  {
    if b then "True" else "False"
  }

  class OpcValue {
    var value: Value
    var status: bool
    var statusCode: uint32

    /** The parameterless constructor: null value, code 0, and `Status` left false although code 0 is good. */
    constructor ()
      ensures value == Null && statusCode == 0 && !status
    {
      value := Null;
      statusCode := 0;
      status := false;
    }

    /** `OpcValue(object Value, ServiceResult StatusCode)`: stores the value and goes through the StatusCode setter. */
    constructor FromResult(value: Value, code: uint32)
      ensures this.value == value && statusCode == code && status == IsGood(code)
    {
      this.value := value;
      statusCode := 0;
      status := false;
      new;
      SetStatusCode(code);
    }

    /** The `StatusCode` setter keeps `Status` in step with the code; nothing else changes. */
    method SetStatusCode(code: uint32)
      modifies this
      ensures statusCode == code && status == IsGood(code) && value == old(value)
    {
      statusCode := code;
      status := IsGood(statusCode);
    }

    /** The public `Status` setter, which can break the agreement with the code. */
    method SetStatus(status: bool)
      modifies this
      ensures this.status == status && statusCode == old(statusCode) && value == old(value)
    {
      this.status := status;
    }

    /** The public `Value` setter. */
    method SetValue(value: Value)
      modifies this
      ensures this.value == value && statusCode == old(statusCode) && status == old(status)
    {
      this.value := value;
    }

    /**
     * `ValueStr`: a byte array as its hex dump, built group by group; a
     * string as itself; any other object by its own text; `None` for null.
     */
    method ValueStr() returns (r: Option<string>)
      ensures r == Render(value)
      ensures value.Bytes? ==> r.Some? && |r.value| == 3 * |value.bytes|
      ensures value == Bytes([]) ==> r == Some("")
      ensures value.Text? ==> r == Some(value.text)
    {
      match value
      case Null =>
        r := None;
      case Bytes(bytes) =>
        var valStr := "";
        for i := 0 to |bytes|
          invariant valStr == HexDump(bytes[..i])
        {
          assert bytes[..i + 1][..i] == bytes[..i];
          valStr := valStr + X2(bytes[i]) + " ";
        }
        assert bytes[..|bytes|] == bytes;
        HexDumpLayout(bytes);
        r := Some(valStr);
      case Text(t) =>
        r := Some(t);
      case Other(rendered) =>
        r := Some(rendered);
    }

    /** `ToString()`: "Val: " + ValueStr + ", Status: " + Status; `None` where `ValueStr` throws. */
    function ToString(): (r: Option<string>)
      reads this
      ensures r.Some? <==> value != Null
      ensures r.Some? ==> Describes(r.value, status)
      ensures r.Some? ==> |r.value| == 15 + |Render(value).value| + |BoolText(status)|
      ensures r.Some? ==> r.value[..5] == "Val: " && r.value[5..5 + |Render(value).value|] == Render(value).value
    {
      match Render(value)
      case None => None
      case Some(v) =>
        var tail := ", Status: " + BoolText(status);
        var t := "Val: " + v + tail;
        assert t == ("Val: " + v) + tail;
        assert t[|t| - |tail|..] == tail;
        assert t[|t| - 4..] == tail[|tail| - 4..];
        assert !status ==> tail[|tail| - 4..] == "alse";
        assert t[..5] == "Val: " && t[5..5 + |v|] == v;
        Some(t)
    }
  }

  /** The text ends with the rendering of `status`, and ends in "True" exactly when `status` holds. */
  predicate Describes(s: string, status: bool)
  {
    |s| >= 15 &&
    (status <==> s[|s| - 4..] == "True") &&
    (status ==> s[|s| - 14..] == ", Status: True") &&
    (!status ==> s[|s| - 15..] == ", Status: False")
  }
}
