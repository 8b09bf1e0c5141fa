/** Byte helpers (GateKeeperSDK/Helper.cs): Arrays.copyOf, Helper.hexStringToByteArray
    and Helper.asString. */
module Helpers {
  import opened Results
  import opened Bytes
  import opened Decimal
  import opened StringUtils

  /** Arrays.copyOf: a new array of `newLength` bytes copied from the front of the
      original. Indexing past the original's end throws, so callers keep
      `newLength` within it (the multiplexer passes the byte count of a read). */
  function CopyOf(original: seq<byte>, newLength: nat): (r: seq<byte>)
    requires newLength <= |original|
    ensures |r| == newLength
    ensures forall i :: 0 <= i < newLength ==> r[i] == original[i]
    ensures newLength == |original| ==> r == original
  {
    original[..newLength]
  }

  predicate IsHexDigit(c: char)
  {
    '0' <= c <= '9' || 'a' <= c <= 'f' || 'A' <= c <= 'F'
  }

  predicate AllHex(s: string)
  {
    forall i :: 0 <= i < |s| ==> IsHexDigit(s[i])
  }

  /** The base-16 value of one digit, either case. */
  function HexValue(c: char): (v: nat)
    requires IsHexDigit(c)
    ensures v < 16
  {
    if '0' <= c <= '9' then c as int - '0' as int
    else if 'a' <= c <= 'f' then c as int - 'a' as int + 10
    else c as int - 'A' as int + 10
  }

  /** hexStringToByteArray: each pair of characters at an even index is parsed with
      Convert.ToByte(_, 16), left to right. A pair cut short by the end of the
      string makes Substring throw; a pair that is not two hex digits makes
      Convert.ToByte throw. */
  function HexStringToByteArray(hex: string): (r: Result<seq<byte>>)
    ensures r.Ok? ==> |r.value| == |hex| / 2
    ensures r.Err? ==> r.fault == OutOfRange || r.fault == BadFormat
    decreases |hex|
  {
    if |hex| == 0 then Ok([])
    else if |hex| == 1 then Err(OutOfRange)
    else if !(IsHexDigit(hex[0]) && IsHexDigit(hex[1])) then Err(BadFormat)
    else
      var b := (16 * HexValue(hex[0]) + HexValue(hex[1])) as byte;
      match HexStringToByteArray(hex[2..])
      case Err(e) => Err(e)
      case Ok(rest) => Ok([b] + rest)
  }

  /** The parse succeeds exactly on an even number of hex digits. */
  lemma {:induction false} HexParseSucceeds(hex: string)
    ensures HexStringToByteArray(hex).Ok? <==> |hex| % 2 == 0 && AllHex(hex)
    decreases |hex|
  {
    if |hex| >= 2 && IsHexDigit(hex[0]) && IsHexDigit(hex[1]) {
      HexTail(hex);
      HexParseSucceeds(hex[2..]);
    }
  }

  /** An even number of hex digits parses to one byte per digit pair: byte k is the
      value of the pair at 2k. */
  lemma {:induction false} HexParseValues(hex: string)
    requires |hex| % 2 == 0 && AllHex(hex)
    ensures HexStringToByteArray(hex).Ok?
    ensures var bs := HexStringToByteArray(hex).value;
            forall k :: 0 <= k < |bs| ==> bs[k] as int == 16 * HexValue(hex[2 * k]) + HexValue(hex[2 * k + 1])
    decreases |hex|
  {
    if |hex| >= 2 {
      var t := hex[2..];
      HexTail(hex);
      HexParseValues(t);
      var bs := HexStringToByteArray(hex).value;
      var rest := HexStringToByteArray(t).value;
      assert bs[1..] == rest;
      forall k | 0 <= k < |bs|
        ensures bs[k] as int == 16 * HexValue(hex[2 * k]) + HexValue(hex[2 * k + 1])
      {
        if k > 0 {
          assert bs[k] == rest[k - 1];
          assert t[2 * (k - 1)] == hex[2 * k] && t[2 * (k - 1) + 1] == hex[2 * k + 1];
        }
      }
    }
  }

  /** A failed parse is out of range exactly when the length is odd and every
      character but the last is a hex digit; otherwise it is a format failure. */
  lemma {:induction false} HexParseFault(hex: string)
    requires HexStringToByteArray(hex).Err?
    ensures HexStringToByteArray(hex).fault == OutOfRange <==> |hex| % 2 == 1 && AllHex(hex[..|hex| - 1])
    decreases |hex|
  {
    if |hex| >= 2 {
      if IsHexDigit(hex[0]) && IsHexDigit(hex[1]) {
        HexTail(hex);
        HexParseFault(hex[2..]);
      } else {
        assert !AllHex(hex[..|hex| - 1]) || |hex| == 2 by {
          if |hex| > 2 {
            assert hex[..|hex| - 1][0] == hex[0] && hex[..|hex| - 1][1] == hex[1];
          }
        }
      }
    }
  }

  /** Two hex digits in front change neither whether the text is all hex, nor
      whether all but its last character are. */
  lemma HexTail(hex: string)
    requires |hex| >= 2 && IsHexDigit(hex[0]) && IsHexDigit(hex[1])
    ensures AllHex(hex) <==> AllHex(hex[2..])
    ensures |hex| >= 3 ==> (AllHex(hex[..|hex| - 1]) <==> AllHex(hex[2..][..|hex| - 3]))
  {
    var t := hex[2..];
    assert forall i :: 0 <= i < |t| ==> t[i] == hex[i + 2];
    if AllHex(t) {
      forall i | 0 <= i < |hex| ensures IsHexDigit(hex[i]) {
        if i >= 2 { assert hex[i] == t[i - 2]; }
      }
    }
    if |hex| >= 3 {
      var u := hex[..|hex| - 1];
      var v := t[..|hex| - 3];
      assert forall i :: 0 <= i < |v| ==> v[i] == u[i + 2];
      if AllHex(v) {
        forall i | 0 <= i < |u| ensures IsHexDigit(u[i]) {
          if i >= 2 { assert u[i] == v[i - 2]; }
        }
      }
    }
  }

  /** The upper-case hex spelling of bytes, two digits per byte. */
  function HexDigit(v: nat): (c: char)
    requires v < 16
    ensures IsHexDigit(c) && HexValue(c) == v
  {
    if v < 10 then ('0' as int + v) as char else ('A' as int + v - 10) as char
  }

  function HexString(bs: seq<byte>): (s: string)
    ensures |s| == 2 * |bs| && AllHex(s)
  {
    if |bs| == 0 then ""
    else [HexDigit(bs[0] as int / 16), HexDigit(bs[0] as int % 16)] + HexString(bs[1..])
  }

  /** Parsing the hex spelling of bytes gives the bytes back. */
  lemma {:induction false} HexRoundTrip(bs: seq<byte>)
    ensures HexStringToByteArray(HexString(bs)) == Ok(bs)
  {
    if |bs| > 0 {
      var hi := HexDigit(bs[0] as int / 16);
      var lo := HexDigit(bs[0] as int % 16);
      var s := HexString(bs);
      assert s == [hi, lo] + HexString(bs[1..]);
      assert s[0] == hi && s[1] == lo && s[2..] == HexString(bs[1..]);
      assert 16 * HexValue(hi) + HexValue(lo) == bs[0] as int;
      HexRoundTrip(bs[1..]);
      assert HexStringToByteArray(s) == Ok([bs[0]] + bs[1..]);
      assert bs == [bs[0]] + bs[1..];
    }
  }

  /** asString: every byte's decimal value followed by one space. */
  function AsString(bs: seq<byte>): (s: string)
    ensures |bs| == 0 ==> s == ""
  {
    if |bs| == 0 then "" else NatToString(bs[0] as nat) + " " + AsString(bs[1..])
  }

  /** The decimal spellings of the bytes, one per byte. */
  function Decimals(bs: seq<byte>): (ds: seq<string>)
    ensures |ds| == |bs|
    ensures forall i :: 0 <= i < |bs| ==> ds[i] == NatToString(bs[i] as nat)
  {
    if |bs| == 0 then [] else [NatToString(bs[0] as nat)] + Decimals(bs[1..])
  }

  /** Splitting the output of asString on ' ' gives each byte's decimal spelling,
      in order, and one empty piece after the final space. */
  lemma {:induction false} AsStringSplits(bs: seq<byte>)
    ensures Split(AsString(bs), {' '}) == Decimals(bs) + [""]
  {
    if |bs| > 0 {
      var d := NatToString(bs[0] as nat);
      assert NoneOf(d, {' '}) by {
        assert AllDigits(d);
      }
      SplitCons(d, ' ', AsString(bs[1..]), {' '});
      AsStringSplits(bs[1..]);
    }
  }

  /** Each piece of asString's output reads back as its byte. */
  lemma AsStringRoundTrip(bs: seq<byte>)
    ensures var pieces := Split(AsString(bs), {' '});
            && |pieces| == |bs| + 1
            && pieces[|bs|] == ""
            && forall i :: 0 <= i < |bs| ==> AllDigits(pieces[i]) && DigitsValue(pieces[i]) == bs[i] as int
  {
    AsStringSplits(bs);
    forall i | 0 <= i < |bs|
      ensures DigitsValue(NatToString(bs[i] as nat)) == bs[i] as int
    {
      NatToStringRoundTrip(bs[i] as nat);
    }
  }
}
