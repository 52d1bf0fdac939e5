/** The PlayFab side of the tracker: decoding the id string stored in the
    player's user data, hex-encoding the Steam session ticket for the login
    request, and turning the service's success-or-error replies into
    results. HTTP and JSON are not modelled: each call's decoded reply is
    given as a function of what is sent. */
module PlayFab {
  import opened Base
  import opened Text

  // ---------------------------------------------------------------------
  // parse_ids
  // ---------------------------------------------------------------------

  /** `parse_ids`: brackets removed only when the text both starts with `[`
      and ends with `]`, then the comma segments, each trimmed and read as a
      `u32`, with those that fail dropped. */
  function ParseIds(idsStr: string): (r: seq<u32>)
    ensures |r| <= |Segments(idsStr)|
  {
    ParseSegments(Segments(idsStr))
  }

  /** The comma-separated pieces of the text inside the brackets. */
  function Segments(idsStr: string): (r: seq<string>)
    ensures |r| >= 1
  {
    Split(Unbracket(idsStr), ',')
  }

  /** The text between the brackets, when there are both. Both tests
      passing means the text has at least two characters, so the slice is
      always in range. */
  function Unbracket(s: string): (r: string)
    ensures StartsWith(s, "[") && EndsWith(s, "]") ==> |s| >= 2 && r == s[1..|s| - 1]
    ensures !(StartsWith(s, "[") && EndsWith(s, "]")) ==> r == s
  {
    if StartsWith(s, "[") && EndsWith(s, "]") then
      assert s[0] == '[' && s[|s| - 1] == ']';
      s[1..|s| - 1]
    else s
  }

  /** Every id is the value of some segment, and every segment that reads
      as a `u32` gives one. */
  lemma {:induction false} ParseIdsMember(idsStr: string, x: u32)
    ensures x in ParseIds(idsStr) <==> exists k :: 0 <= k < |Segments(idsStr)| && SegmentId(Segments(idsStr)[k]) == Some(x)
  {
    ParseSegmentsMember(Segments(idsStr), x);
  }

  /** When every segment reads as a number, the result is those numbers one
      for one, in segment order. */
  lemma ParseIdsInOrder(idsStr: string)
    requires forall k :: 0 <= k < |Segments(idsStr)| ==> SegmentId(Segments(idsStr)[k]).Some?
    ensures |ParseIds(idsStr)| == |Segments(idsStr)|
    ensures forall k :: 0 <= k < |Segments(idsStr)| ==> ParseIds(idsStr)[k] == SegmentId(Segments(idsStr)[k]).value
  {
    FilterMapAll(Segments(idsStr), SegmentId);
  }

  /** Segments keep their order: the ids of `a,b` are those of `a` followed
      by those of `b`. */
  lemma ParseIdsConcat(a: string, b: string)
    requires ',' !in a && (a == [] || a[0] != '[')
    ensures ParseIds(a + "," + b) == ParseSegments([a]) + ParseSegments(Split(b, ','))
  {
    var s := a + "," + b;
    assert s[0] == if a == [] then ',' else a[0];
    assert Unbracket(s) == s;
    SplitCons(a, ',', b);
    FilterMapConcat([a], Split(b, ','), SegmentId);
  }

  /** Text whose inside holds no comma is a single segment. */
  lemma OneSegment(s: string)
    requires ',' !in Unbracket(s)
    ensures ParseIds(s) == ParseSegments([Unbracket(s)])
  {
    assert IndexOf(Unbracket(s), ',').None?;
  }

  /** A single segment gives its id, if it has one. */
  lemma ParseSegmentsOne(seg: string)
    ensures SegmentId(seg).Some? ==> ParseSegments([seg]) == [SegmentId(seg).value]
    ensures SegmentId(seg).None? ==> ParseSegments([seg]) == []
  {
    assert [seg][1..] == [];
  }

  /** Whitespace holds no comma. */
  lemma WhitespaceNoComma(s: string)
    requires AllWhitespace(s)
    ensures ',' !in s
  {
    assert forall i :: 0 <= i < |s| ==> IsWhitespace(s[i]);
  }

  /** Digits hold no comma and start and end with no whitespace. */
  lemma DigitsFacts(d: string)
    requires |d| > 0 && AllDigits(d)
    ensures ',' !in d && d[0] != '[' && d[|d| - 1] != ']'
    ensures !IsWhitespace(d[0]) && !IsWhitespace(d[|d| - 1])
  {
    assert forall i :: 0 <= i < |d| ==> d[i] != ',';
  }

  /** Digits with whitespace around them: no comma, no bracket at either
      end, and trimming leaves the digits. */
  lemma PaddedDigits(pre: string, d: string, post: string)
    requires AllWhitespace(pre) && AllWhitespace(post) && |d| > 0 && AllDigits(d)
    ensures Trim(pre + d + post) == d
    ensures ',' !in pre + d + post
    ensures (pre + d + post)[0] != '['
  {
    DigitsFacts(d);
    TrimPadded(pre, d, post);
    WhitespaceNoComma(pre);
    WhitespaceNoComma(post);
    var s := pre + d + post;
    if |pre| > 0 {
      assert s[0] == pre[0];
    } else {
      assert s[0] == d[0];
    }
  }

  /** A number written in decimal with any whitespace around it (spaces,
      CR, LF, ...) is one comma-free segment with that id. */
  lemma SegmentOfPadded(pre: string, n: u32, post: string)
    requires AllWhitespace(pre) && AllWhitespace(post)
    ensures SegmentId(pre + Decimal(n) + post) == Some(n)
    ensures ',' !in pre + Decimal(n) + post
    ensures (pre + Decimal(n) + post)[0] != '['
  {
    PaddedDigits(pre, Decimal(n), post);
    ParseDecimal(n);
  }

  /** The empty string and the empty list hold no ids. */
  lemma ParseIdsEmpty()
    ensures ParseIds("") == []
    ensures ParseIds("[]") == []
  {
    assert Unbracket("") == "";
    assert Unbracket("[]") == "";
    OneSegment("");
    OneSegment("[]");
    assert Trim("") == "";
    ParseSegmentsOne("");
  }

  /** One number, bracketed or bare, gives that one id. */
  lemma ParseIdsSingle(n: u32)
    ensures ParseIds(Decimal(n)) == [n]
    ensures ParseIds("[" + Decimal(n) + "]") == [n]
  {
    ParseDecimal(n);
    NumeralSingle(Decimal(n), n);
  }

  lemma NumeralSingle(d: string, v: u32)
    requires |d| > 0 && AllDigits(d) && ParseU32(d) == Some(v)
    ensures ParseIds(d) == [v]
    ensures ParseIds("[" + d + "]") == [v]
  {
    DigitsFacts(d);
    TrimUnpadded(d);
    ParseSegmentsOne(d);
    assert Unbracket(d) == d;
    OneSegment(d);
    UnbracketBracketed(d);
    OneSegment("[" + d + "]");
  }

  /** Brackets on both sides are removed. */
  lemma UnbracketBracketed(inner: string)
    ensures Unbracket("[" + inner + "]") == inner
  {
    var s := "[" + inner + "]";
    assert s[..1] == "[" && s[|s| - 1..] == "]";
    assert s[1..|s| - 1] == inner;
  }

  /** A bracket on one side only is not removed, and the segment it sticks
      to is then not a number. */
  lemma BracketsNeedBoth(n: u32)
    ensures ParseIds("[" + Decimal(n)) == []
    ensures ParseIds(Decimal(n) + "]") == []
  {
    OpenOnly(Decimal(n));
    CloseOnly(Decimal(n));
  }

  lemma OpenOnly(d: string)
    requires |d| > 0 && AllDigits(d)
    ensures ParseIds("[" + d) == []
  {
    var s := "[" + d;
    DigitsFacts(d);
    assert s[|s| - 1] == d[|d| - 1];
    assert Unbracket(s) == s;
    assert ',' !in s;
    NotANumber(s, 0);
    OneSegment(s);
    ParseSegmentsOne(s);
  }

  lemma CloseOnly(d: string)
    requires |d| > 0 && AllDigits(d)
    ensures ParseIds(d + "]") == []
  {
    var s := d + "]";
    DigitsFacts(d);
    assert s[0] == d[0];
    assert Unbracket(s) == s;
    assert ',' !in s;
    NotANumber(s, |s| - 1);
    OneSegment(s);
    ParseSegmentsOne(s);
  }

  /** Text with no whitespace at its ends and a character that is neither a
      digit nor a leading `+` is not an id. */
  lemma NotANumber(s: string, i: nat)
    requires i < |s| && !IsWhitespace(s[0]) && !IsWhitespace(s[|s| - 1])
    requires !IsAsciiDigit(s[i]) && (i > 0 || s[i] != '+')
    ensures SegmentId(s).None?
  {
    TrimUnpadded(s);
    NotU32(s, i);
  }

  /** Two numbers separated by a comma, each with any whitespace around it,
      give both ids in order (`12345, 54321`, or the same across CR/LF line
      breaks). */
  lemma ParseIdsTwo(pre1: string, a: u32, post1: string, pre2: string, b: u32, post2: string)
    requires AllWhitespace(pre1) && AllWhitespace(post1)
    requires AllWhitespace(pre2) && AllWhitespace(post2)
    ensures ParseIds((pre1 + Decimal(a) + post1) + "," + (pre2 + Decimal(b) + post2)) == [a, b]
  {
    SegmentOfPadded(pre1, a, post1);
    SegmentOfPadded(pre2, b, post2);
    TwoIds(pre1 + Decimal(a) + post1, pre2 + Decimal(b) + post2, a, Some(b));
  }

  /** Two comma-free segments, the first an id and not opening a bracket,
      give that id followed by the second's, if any. */
  lemma TwoIds(first: string, second: string, a: u32, b: Option<u32>)
    requires ',' !in first && ',' !in second && |first| > 0 && first[0] != '['
    requires SegmentId(first) == Some(a) && SegmentId(second) == b
    ensures b.Some? ==> ParseIds(first + "," + second) == [a, b.value]
    ensures b.None? ==> ParseIds(first + "," + second) == [a]
  {
    TwoSegments(first, second);
    ParseSegmentsOne(first);
    ParseSegmentsOne(second);
    var x := ParseSegments([first]);
    var y := ParseSegments([second]);
    AppendOne(x, y, a, b);
  }

  /** `[a]` followed by at most one more id. */
  lemma AppendOne(x: seq<u32>, y: seq<u32>, a: u32, b: Option<u32>)
    requires x == [a] && y == (if b.Some? then [b.value] else [])
    ensures b.Some? ==> x + y == [a, b.value]
    ensures b.None? ==> x + y == [a]
  {
  }

  /** Two comma-free segments, the first not opening a bracket. */
  lemma TwoSegments(first: string, second: string)
    requires ',' !in first && ',' !in second && |first| > 0 && first[0] != '['
    ensures ParseIds(first + "," + second) == ParseSegments([first]) + ParseSegments([second])
  {
    ParseIdsConcat(first, second);
    assert IndexOf(second, ',').None?;
  }

  /** A segment that is not a number is dropped and the others are kept. */
  lemma ParseIdsSkipsInvalid(a: u32, junk: string)
    requires ',' !in junk && SegmentId(junk).None?
    ensures ParseIds(Decimal(a) + "," + junk) == [a]
  {
    SegmentOfDecimal(a);
    TwoIds(Decimal(a), junk, a, None);
  }

  /** A bare number is one comma-free segment with that id. */
  lemma SegmentOfDecimal(n: u32)
    ensures SegmentId(Decimal(n)) == Some(n)
    ensures ',' !in Decimal(n) && Decimal(n)[0] != '['
  {
    DigitsFacts(Decimal(n));
    TrimUnpadded(Decimal(n));
    ParseDecimal(n);
  }

  /** A word such as ` abc` is not a number. */
  lemma WordIsNotId()
    ensures SegmentId(" abc").None?
  {
    TrimPadded(" ", "abc", []);
    assert " " + "abc" + [] == " abc";
  }

  // ---------------------------------------------------------------------
  // to_hex
  // ---------------------------------------------------------------------

  predicate IsUpperHexDigit(c: char) {
    '0' <= c <= '9' || 'A' <= c <= 'F'
  }

  /** The digit `{:X}` writes for a value below 16. */
  function HexDigit(d: nat): (c: char)
    requires d < 16
    ensures IsUpperHexDigit(c) && HexValue(c) == Some(d)
  {
    if d < 10 then ('0' as int + d) as char else ('A' as int + d - 10) as char
  }

  /** The value of an upper-case hex digit; `None` for any other character. */
  function HexValue(c: char): (r: Option<nat>)
    ensures r.Some? <==> IsUpperHexDigit(c)
    ensures r.Some? ==> r.value < 16
  {
    if '0' <= c <= '9' then Some(c as int - '0' as int)
    else if 'A' <= c <= 'F' then Some(c as int - 'A' as int + 10)
    else None
  }

  /** `{b:02X}`: two upper-case hex digits, zero-padded, high nibble first. */
  function ByteHex(b: u8): (r: string)
    ensures |r| == 2 && HexValue(r[0]).Some? && HexValue(r[1]).Some?
    ensures HexValue(r[0]).value * 16 + HexValue(r[1]).value == b
  {
    [HexDigit(b / 16), HexDigit(b % 16)]
  }

  /** `to_hex`: the bytes folded left into a string, two digits per byte. */
  function ToHex(bytes: seq<u8>): (r: string)
    ensures |r| == 2 * |bytes|
    ensures forall i :: 0 <= i < |r| ==> IsUpperHexDigit(r[i])
  {
    if |bytes| == 0 then []
    else ToHex(bytes[..|bytes| - 1]) + ByteHex(bytes[|bytes| - 1])
  }

  /** The reference decoder: pairs of upper-case hex digits back to bytes;
      `None` for an odd length or any other character. */
  function FromHex(s: string): (r: Option<seq<u8>>)
    ensures r.Some? ==> |s| == 2 * |r.value|
  {
    if |s| == 0 then Some([])
    else if |s| == 1 then None
    else
      match FromHex(s[..|s| - 2])
      case None => None
      case Some(init) =>
        match (HexValue(s[|s| - 2]), HexValue(s[|s| - 1]))
        case (Some(hi), Some(lo)) => Some(init + [hi * 16 + lo])
        case _ => None
  }

  /** Decoding the hex text gives the bytes back. */
  lemma {:induction false} FromHexToHex(bytes: seq<u8>)
    ensures FromHex(ToHex(bytes)) == Some(bytes)
  {
    if |bytes| > 0 {
      var init := bytes[..|bytes| - 1];
      var last := bytes[|bytes| - 1];
      assert init + [last] == bytes;
      FromHexToHex(init);
      FromHexSnoc(ToHex(init), init, last);
    }
  }

  /** Decoding one more pair of digits appends its byte. */
  lemma FromHexSnoc(t: string, bs: seq<u8>, b: u8)
    requires FromHex(t) == Some(bs)
    ensures FromHex(t + ByteHex(b)) == Some(bs + [b])
  {
    var s := t + ByteHex(b);
    assert s[..|s| - 2] == t;
    assert s[|s| - 2] == ByteHex(b)[0] && s[|s| - 1] == ByteHex(b)[1];
  }

  /** Different tickets give different hex text. */
  lemma ToHexInjective(a: seq<u8>, b: seq<u8>)
    requires ToHex(a) == ToHex(b)
    ensures a == b
  {
    FromHexToHex(a);
    FromHexToHex(b);
  }

  /** Byte `i` is written at positions `2i` and `2i + 1`. */
  lemma {:induction false} ToHexAt(bytes: seq<u8>, i: nat)
    requires i < |bytes|
    ensures ToHex(bytes)[2 * i..2 * i + 2] == ByteHex(bytes[i])
  {
    var init := bytes[..|bytes| - 1];
    if i < |bytes| - 1 {
      ToHexAt(init, i);
      assert ToHex(bytes)[2 * i..2 * i + 2] == ToHex(init)[2 * i..2 * i + 2];
    }
  }

  // ---------------------------------------------------------------------
  // login / get_user_data
  // ---------------------------------------------------------------------

  /** The error body PlayFab sends. */
  datatype ErrorDetails = ErrorDetails(
    code: u16, error: string, errorCode: string, errorDetails: string, errorMessage: string, status: string)

  /** The untagged reply envelope: the data on success, the details
      otherwise. */
  datatype ApiResponse<T> = Success(data: T) | Error(details: ErrorDetails)

  /** Why a call failed: the request or the decoding of its reply failed
      (`Transport`), or the service answered with an error body (`Api`). */
  datatype CallError = Transport(message: string) | Api(details: ErrorDetails)

  /** The envelope turned into a result. */
  function FromApi<T>(res: ApiResponse<T>): (r: Result<T, CallError>)
    ensures r.Ok? <==> res.Success?
    ensures r.Ok? ==> r.value == res.data
    ensures r.Err? ==> r.error == Api(res.details)
  {
    match res
    case Success(data) => Ok(data)
    case Error(e) => Err(Api(e))
  }

  /** An HTTP exchange that either fails or yields a decoded envelope. */
  function Exchange<T>(reply: Result<ApiResponse<T>, string>): (r: Result<T, CallError>)
    ensures r.Ok? <==> reply.Ok? && reply.value.Success?
    ensures r.Ok? ==> r.value == reply.value.data
  {
    match reply
    case Err(msg) => Err(Transport(msg))
    case Ok(res) => FromApi(res)
  }

  const GtfoTitleId: string := "8f9"

  datatype LoginRequest = LoginRequest(titleId: string, createAccount: bool, steamTicket: string, ticketIsServiceSpecific: bool)

  /** `LoginRequest::new`: never creates an account, and the ticket is not
      service specific. */
  function NewLoginRequest(titleId: string, steamTicket: string): (r: LoginRequest)
    ensures !r.createAccount && !r.ticketIsServiceSpecific
    ensures r.titleId == titleId && r.steamTicket == steamTicket
  {
    LoginRequest(titleId, false, steamTicket, false)
  }

  /** The request `login` sends for a Steam ticket. */
  function LoginRequestFor(ticket: seq<u8>): (r: LoginRequest)
    ensures r.titleId == GtfoTitleId && !r.createAccount && !r.ticketIsServiceSpecific
    ensures FromHex(r.steamTicket) == Some(ticket)
  {
    FromHexToHex(ticket);
    NewLoginRequest(GtfoTitleId, ToHex(ticket))
  }

  datatype SessionTicket = SessionTicket(value: string)

  /** `login`: `post` is the exchange with `LoginWithSteam`, giving the
      reply's session ticket on success. */
  function Login(ticket: seq<u8>, post: LoginRequest -> Result<ApiResponse<string>, string>): (r: Result<SessionTicket, CallError>)
    ensures r.Ok? <==> post(LoginRequestFor(ticket)).Ok? && post(LoginRequestFor(ticket)).value.Success?
    ensures r.Ok? ==> r.value.value == post(LoginRequestFor(ticket)).value.data
    ensures post(LoginRequestFor(ticket)).Ok? && post(LoginRequestFor(ticket)).value.Error? ==>
              r == Err(Api(post(LoginRequestFor(ticket)).value.details))
  {
    match Exchange(post(LoginRequestFor(ticket)))
    case Ok(sessionTicket) => Ok(SessionTicket(sessionTicket))
    case Err(e) => Err(e)
  }

  /** `get_user_data`: `post` is the exchange with `GetUserData` under the
      session ticket; on success the stored `readlogs` value is decoded by
      `parse_ids`. */
  function GetUserData(session: SessionTicket, post: SessionTicket -> Result<ApiResponse<string>, string>): (r: Result<seq<u32>, CallError>)
    ensures r.Ok? <==> post(session).Ok? && post(session).value.Success?
    ensures r.Ok? ==> forall x :: x in r.value ==>
              exists k :: 0 <= k < |Segments(post(session).value.data)| && SegmentId(Segments(post(session).value.data)[k]) == Some(x)
  {
    match Exchange(post(session))
    case Ok(readLogs) =>
      var ids := ParseIds(readLogs);
      assert forall x :: x in ids ==> exists k :: 0 <= k < |Segments(readLogs)| && SegmentId(Segments(readLogs)[k]) == Some(x) by {
        forall x | x in ids
          ensures exists k :: 0 <= k < |Segments(readLogs)| && SegmentId(Segments(readLogs)[k]) == Some(x)
        {
          ParseIdsMember(readLogs, x);
        }
      }
      Ok(ids)
    case Err(e) => Err(e)
  }
}
