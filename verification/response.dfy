/** Card replies (GateKeeperSDK/Response.cs): a status code, an optional message
    and the stream any body data was stored in. */
module Responses {
  import opened Results
  import opened Bytes
  import opened Decimal
  import opened StringUtils

  const Int32Min: int := -0x8000_0000
  const Int32Max: int := 0x7FFF_FFFF

  predicate InInt32(n: int)
  {
    Int32Min <= n <= Int32Max
  }

  /** The white space Int32 parsing skips around a number: space and TAB to CR. */
  predicate IsWhite(c: char)
  {
    c == ' ' || '\t' <= c <= '\r'
  }

  /** Every character of s[a..b] is white space. */
  predicate WhiteBetween(s: string, a: nat, b: nat)
    requires a <= b <= |s|
  {
    forall k :: a <= k < b ==> IsWhite(s[k])
  }

  /** The index of the first character at or after k that is not white space. */
  function WhiteEnd(s: string, k: nat): (n: nat)
    requires k <= |s|
    ensures k <= n <= |s| && WhiteBetween(s, k, n)
    ensures n < |s| ==> !IsWhite(s[n])
    decreases |s| - k
  {
    if k == |s| || !IsWhite(s[k]) then k else WhiteEnd(s, k + 1)
  }

  /** The index just past the last character before e that is not white space,
      looking no further back than lo. */
  function WhiteStart(s: string, lo: nat, e: nat): (n: nat)
    requires lo <= e <= |s|
    ensures lo <= n <= e && WhiteBetween(s, n, e)
    ensures n > lo ==> !IsWhite(s[n - 1])
    decreases e - lo
  {
    if e == lo || !IsWhite(s[e - 1]) then e else WhiteStart(s, lo, e - 1)
  }

  /** Every character of s[a..b] is NUL. */
  predicate NulsBetween(s: string, a: nat, b: nat)
    requires a <= b <= |s|
  {
    forall k :: a <= k < b ==> s[k] == '\0'
  }

  /** The index where the run of NUL characters that ends `s` begins. */
  function NulStart(s: string, e: nat): (n: nat)
    requires e <= |s|
    ensures n <= e && NulsBetween(s, n, e)
    ensures n > 0 ==> s[n - 1] != '\0'
    decreases e
  {
    if e == 0 || s[e - 1] != '\0' then e else NulStart(s, e - 1)
  }

  predicate IsSign(c: char)
  {
    c == '+' || c == '-'
  }

  /** An optional sign and at least one decimal digit. */
  predicate SignedDigits(t: string)
  {
    |t| > 0 && if IsSign(t[0]) then |t| > 1 && AllDigits(t[1..]) else AllDigits(t)
  }

  function SignedValue(t: string): int
    requires SignedDigits(t)
  {
    if t[0] == '-' then 0 - DigitsValue(t[1..]) as int
    else if t[0] == '+' then DigitsValue(t[1..])
    else DigitsValue(t)
  }

  /** `s` is white space, a signed number occupying s[i..j], then white space. */
  predicate PaddedAt(s: string, i: nat, j: nat)
  {
    i <= j <= |s| && WhiteBetween(s, 0, i) && SignedDigits(s[i..j]) && WhiteBetween(s, j, |s|)
  }

  /** `s` is a padded number in s[..z] followed by NUL characters only. */
  predicate NumberAt(s: string, i: nat, j: nat, z: nat)
  {
    z <= |s| && NulsBetween(s, z, |s|) && PaddedAt(s[..z], i, j)
  }

  /** The number in a padded text: a format failure unless the text is white space,
      an optional sign and decimal digits, white space; an overflow outside Int32. */
  function ParsePadded(p: string): (r: Result<int>)
    ensures r.Ok? ==> InInt32(r.value)
    ensures r.Err? ==> r.fault == BadFormat || r.fault == Overflow
  {
    var lead := WhiteEnd(p, 0);
    var end := WhiteStart(p, lead, |p|);
    var body := p[lead..end];
    if !SignedDigits(body) then Err(BadFormat)
    else if InInt32(SignedValue(body)) then Ok(SignedValue(body))
    else Err(Overflow)
  }

  /** Convert.ToInt32(string): white space, an optional sign and decimal digits,
      white space, and then any number of NUL characters, which the .NET number
      parser accepts after a number. Anything else is a FormatException; a
      well-formed number outside Int32 is an OverflowException. */
  function ParseInt32(s: string): (r: Result<int>)
    ensures r.Ok? ==> InInt32(r.value)
    ensures r.Err? ==> r.fault == BadFormat || r.fault == Overflow
  {
    ParsePadded(s[..NulStart(s, |s|)])
  }

  /** Every way of reading a text as a padded number gives the value ParsePadded
      reports. */
  lemma ParsePaddedNumber(p: string, i: nat, j: nat)
    requires PaddedAt(p, i, j)
    ensures ParsePadded(p) == if InInt32(SignedValue(p[i..j])) then Ok(SignedValue(p[i..j])) else Err(Overflow)
  {
    var t := p[i..j];
    assert !IsWhite(p[i]) by {
      assert p[i] == t[0];
    }
    assert !IsWhite(p[j - 1]) by {
      assert p[j - 1] == t[|t| - 1];
      if IsSign(t[0]) {
        assert t[|t| - 1] == t[1..][|t| - 2];
      }
    }
    assert WhiteEnd(p, 0) == i;
    assert WhiteStart(p, i, |p|) == j;
  }

  /** Every way of reading `s` as a padded number followed by NULs gives the value
      ParseInt32 reports: the value when it fits Int32, an overflow otherwise. */
  lemma ParseInt32Number(s: string, i: nat, j: nat, z: nat)
    requires NumberAt(s, i, j, z)
    ensures var t := s[..z][i..j];
            ParseInt32(s) == if InInt32(SignedValue(t)) then Ok(SignedValue(t)) else Err(Overflow)
  {
    var p := s[..z];
    assert s[z - 1] != '\0' by {
      assert p[z - 1] == s[z - 1];
      if j < z {
        assert IsWhite(p[z - 1]);
      } else {
        var t := p[i..j];
        assert p[j - 1] == t[|t| - 1];
        if IsSign(t[0]) {
          assert t[|t| - 1] == t[1..][|t| - 2];
        }
      }
    }
    assert NulStart(s, |s|) == z by {
      NulStartAt(s, z, |s|);
    }
    ParsePaddedNumber(p, i, j);
  }

  /** NulStart finds the start of a NUL run that follows a non-NUL character. */
  lemma {:induction false} NulStartAt(s: string, z: nat, e: nat)
    requires 0 < z <= e <= |s| && s[z - 1] != '\0' && NulsBetween(s, z, e)
    ensures NulStart(s, e) == z
    decreases e
  {
    if e > z {
      NulStartAt(s, z, e - 1);
    }
  }

  /** Whenever ParseInt32 does not report a format error, the text is a padded number
      followed by NULs. */
  lemma ParseInt32WellFormed(s: string)
    requires ParseInt32(s) != Err(BadFormat)
    ensures var z := NulStart(s, |s|);
            var lead := WhiteEnd(s[..z], 0);
            NumberAt(s, lead, WhiteStart(s[..z], lead, z), z)
  {
  }

  /** Convert.ToInt32 accepts NULs after the number: "226\0" is 226. */
  lemma TrailingNulAccepted()
    ensures ParseInt32("226\0") == Ok(226)
  {
    var s := "226\0";
    assert s[..3] == "226";
    assert s[..3][0..3] == "226";
    assert DigitsValue("226") == 226 by {
      assert "226"[..2] == "22" && "22"[..1] == "2" && "2"[..0] == "";
    }
    ParseInt32Number(s, 0, 3, 3);
  }

  /** A NUL anywhere but after the number is a format failure: "2\06" is not a number. */
  lemma InnerNulRejected()
    ensures ParseInt32("2\06") == Err(BadFormat)
  {
    var s := "2\06";
    assert NulStart(s, 3) == 3;
    assert s[..3] == s;
    assert WhiteEnd(s, 0) == 0;
    assert WhiteStart(s, 0, 3) == 3;
    assert !AllDigits(s) by {
      assert !IsDigit(s[1]);
    }
  }

  /** Int32.ToString reads back through Convert.ToInt32. */
  lemma Int32RoundTrip(n: int)
    requires InInt32(n)
    ensures ParseInt32(IntToString(n)) == Ok(n)
  {
    var s := IntToString(n);
    assert SignedDigits(s) && SignedValue(s) == n by {
      if n < 0 {
        NatToStringRoundTrip(-n);
        assert s[1..] == NatToString(-n);
      } else {
        NatToStringRoundTrip(n);
      }
    }
    assert s[..|s|] == s;
    assert NumberAt(s, 0, |s|, |s|) by {
      assert s[..|s|][0..|s|] == s;
    }
    ParseInt32Number(s, 0, |s|, |s|);
    assert s[..|s|][0..|s|] == s;
  }

  /** A Response: status, message (null when the reply has none) and body stream. */
  datatype Response = Response(status: int, message: Option<string>, dataFile: Option<seq<byte>>)

  /** The characters that end the status code in a reply line. */
  const Separators: set<char> := {' ', '\n', '\r'}

  /** Response(byte[], Stream): decode the line, split it once at the first space, LF
      or CR, parse the first piece as the status and keep the second as the message.
      A line without a separator has no message. */
  function ParseResponse(commandData: seq<byte>, bodyDataFile: Option<seq<byte>>): (r: Result<Response>)
    ensures r.Ok? ==> r.value.dataFile == bodyDataFile && InInt32(r.value.status)
    ensures r.Ok? && r.value.message.None? ==> NoneOf(DecodeText(commandData), Separators)
    ensures r.Ok? && r.value.message.Some? ==>
              var text := DecodeText(commandData);
              var k := |text| - |r.value.message.value| - 1;
              && 0 <= k && text[k] in Separators && NoneOf(text[..k], Separators)
              && text[k + 1..] == r.value.message.value
              && ParseInt32(text[..k]) == Ok(r.value.status)
    ensures var text := DecodeText(commandData);
            var k := IndexOfAny(text, Separators);
            && (r.Ok? <==> ParseInt32(text[..k]).Ok?)
            && (r.Ok? ==> r.value.status == ParseInt32(text[..k]).value)
            && (r.Ok? ==> (r.value.message.None? <==> k == |text|))
            && (r.Err? ==> ParseInt32(text[..k]) == Err(r.fault))
    ensures r.Err? ==> r.fault == BadFormat || r.fault == Overflow
  {
    var text := DecodeText(commandData);
    var k := IndexOfAny(text, Separators);
    IndexOfAnyFirst(text, Separators);
    assert k == |text| ==> text[..k] == text;
    var status :- ParseInt32(text[..k]);
    var message := if k < |text| then Some(text[k + 1..]) else None;
    Ok(Response(status, message, bodyDataFile))
  }

  /** Response(Response): a response with the same status, message and data stream,
      so it prints the same status message. */
  function CopyResponse(r: Response): (c: Response)
    ensures c.status == r.status && c.message == r.message && c.dataFile == r.dataFile
    ensures StatusMessage(c) == StatusMessage(r)
  {
    Response(r.status, r.message, r.dataFile)
  }

  /** getStatusMessage: the status, a space and the message; a null message prints as
      nothing. */
  function StatusMessage(r: Response): string
  {
    IntToString(r.status) + " " + match r.message case Some(m) => m case None => ""
  }

  /** A line made of a status, one separator and a message parses to that status
      and message. */
  lemma ParseStatusLine(commandData: seq<byte>, digits: string, sep: char, m: string, dataFile: Option<seq<byte>>)
    requires DecodeText(commandData) == digits + [sep] + m
    requires NoneOf(digits, Separators) && sep in Separators && ParseInt32(digits).Ok?
    ensures ParseResponse(commandData, dataFile) == Ok(Response(ParseInt32(digits).value, Some(m), dataFile))
  {
    var text := DecodeText(commandData);
    IndexOfAnyAfter(digits, [sep] + m, Separators);
    assert text == digits + ([sep] + m);
    assert text[..|digits|] == digits;
    assert text[|digits| + 1..] == m;
  }

  /** Int32.ToString writes only ASCII and no separator. */
  lemma IntToStringPlain(n: int)
    ensures NoneOf(IntToString(n), Separators) && IsAscii(IntToString(n))
  {
    var s := IntToString(n);
    var d := NatToString(if n < 0 then -n else n);
    assert AllDigits(d);
    if n < 0 {
      assert forall i :: 1 <= i < |s| ==> s[i] == d[i - 1];
    }
  }

  /** Printing a response and parsing the printed line gives the response back, for
      any Int32 status and ASCII message. */
  lemma StatusMessageRoundTrip(r: Response)
    requires InInt32(r.status) && r.message.Some? && IsAscii(r.message.value)
    ensures ParseResponse(AsciiBytes(StatusMessage(r)), r.dataFile) == Ok(r)
  {
    var digits := IntToString(r.status);
    var m := r.message.value;
    var s := StatusMessage(r);
    assert s == digits + [' '] + m;
    IntToStringPlain(r.status);
    assert IsAscii(s) by {
      assert forall i :: 0 <= i < |digits| ==> s[i] == digits[i];
      assert forall i :: |digits| < i < |s| ==> s[i] == m[i - |digits| - 1];
    }
    AsciiRoundTrip(s);
    Int32RoundTrip(r.status);
    ParseStatusLine(AsciiBytes(s), digits, ' ', m, r.dataFile);
  }

  /** A line with no separator parses to its status and no message. */
  lemma ParseStatusOnly(commandData: seq<byte>, dataFile: Option<seq<byte>>)
    requires NoneOf(DecodeText(commandData), Separators) && ParseInt32(DecodeText(commandData)).Ok?
    ensures ParseResponse(commandData, dataFile)
            == Ok(Response(ParseInt32(DecodeText(commandData)).value, None, dataFile))
  {
    var text := DecodeText(commandData);
    assert IndexOfAny(text, Separators) == |text|;
    assert text[..|text|] == text;
  }

  /** A status-only line parses with no message. */
  lemma StatusOnlyLine(status: nat, dataFile: Option<seq<byte>>)
    requires status <= Int32Max
    ensures ParseResponse(AsciiBytes(NatToString(status)), dataFile) == Ok(Response(status, None, dataFile))
  {
    var digits := NatToString(status);
    IntToStringPlain(status);
    AsciiRoundTrip(digits);
    Int32RoundTrip(status);
    ParseStatusOnly(AsciiBytes(digits), dataFile);
  }

  /** Printing a response without a message and parsing it again gives an empty
      message rather than none. */
  lemma NoMessageRoundTrip(status: int, dataFile: Option<seq<byte>>)
    requires InInt32(status)
    ensures ParseResponse(AsciiBytes(StatusMessage(Response(status, None, dataFile))), dataFile)
            == Ok(Response(status, Some(""), dataFile))
  {
    assert StatusMessage(Response(status, None, dataFile)) == StatusMessage(Response(status, Some(""), dataFile));
    StatusMessageRoundTrip(Response(status, Some(""), dataFile));
  }
}
