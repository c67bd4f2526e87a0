/** `GmailFetcher`: turning the mail provider's message payloads into plain
    email records. */
module Gmail {
  import opened Wrappers
  import opened Text

  /** One entry of `payload['headers']`; a missing name or value reads as "",
      as `header.get(..., '')` does. */
  datatype Header = Header(name: string, value: string)

  /** One entry of `payload['parts']`: its `mimeType` (None when the key is
      missing) and its `body['data']` (None when either key is missing). */
  datatype Part = Part(mimeType: Option<string>, data: Option<string>)

  /** A message payload. `headers` is [] when the key is missing; `parts` is
      None when the key is missing, which is not the same as an empty list. */
  datatype Payload = Payload(
    headers: seq<Header>,
    parts: Option<seq<Part>>,
    mimeType: Option<string>,
    data: Option<string>)

  /** A full message as `messages().get(...)` returns it. */
  datatype Message = Message(id: Option<string>, payload: Option<Payload>)

  /** Base64url decoding (section 5 of RFC 4648) followed by UTF-8 decoding:
      the text, or None when either step raises. */
  type Decoder = string -> Option<string>

  const PlainText := "text/plain"
  const HtmlText := "text/html"

  // ---------------------------------------------------------------------
  // Headers

  /** Whether a header's name, lower-cased, is `key`. */
  predicate Names(h: Header, key: string)
  {
    ToLower(h.name) == key
  }

  /** The value of the last header named `key` (compared lower-cased), or ""
      when there is none. */
  function LastValue(headers: seq<Header>, key: string): string
  {
    if headers == [] then ""
    else if Names(headers[|headers| - 1], key) then headers[|headers| - 1].value
    else LastValue(headers[..|headers| - 1], key)
  }

  /** Whether header `j` is named `key` and no later header is. */
  predicate LastMatchAt(headers: seq<Header>, key: string, j: int)
  {
    0 <= j < |headers| && Names(headers[j], key) && forall k :: j < k < |headers| ==> !Names(headers[k], key)
  }

  /** `LastValue` picks the last matching header. */
  lemma {:induction false} LastValueIsLastMatch(headers: seq<Header>, key: string, j: int)
    requires LastMatchAt(headers, key, j)
    ensures LastValue(headers, key) == headers[j].value
  {
    var n := |headers| - 1;
    if j < n {
      var init := headers[..n];
      assert !Names(headers[n], key);
      assert LastMatchAt(init, key, j) by {
        assert forall k :: j < k < n ==> init[k] == headers[k];
      }
      LastValueIsLastMatch(init, key, j);
    }
  }

  /** `LastValue` is "" when no header matches. */
  lemma {:induction false} LastValueNoMatch(headers: seq<Header>, key: string)
    requires forall j :: 0 <= j < |headers| ==> !Names(headers[j], key)
    ensures LastValue(headers, key) == ""
  {
    if headers != [] {
      var init := headers[..|headers| - 1];
      assert !Names(headers[|headers| - 1], key);
      assert forall j :: 0 <= j < |init| ==> init[j] == headers[j];
      LastValueNoMatch(init, key);
    }
  }

  /** A header whose name is not `key` does not change `key`'s value,
      wherever it stands. */
  lemma {:induction false} LastValueIgnoresOthers(before: seq<Header>, h: Header, after: seq<Header>, key: string)
    requires !Names(h, key)
    ensures LastValue(before + [h] + after, key) == LastValue(before + after, key)
  {
    if after == [] {
      assert (before + [h] + after)[..|before| + 1 - 1] == before;
      assert before + after == before;
    } else {
      var init := after[..|after| - 1];
      var last := after[|after| - 1];
      LastValueIgnoresOthers(before, h, init, key);
      assert (before + [h] + after)[..|before + [h] + after| - 1] == before + [h] + init;
      assert (before + after)[..|before + after| - 1] == before + init;
    }
  }

  /** Header names are compared without regard to ASCII case: renaming
      headers to names with the same lower-case form changes nothing. */
  lemma {:induction false} LastValueCaseInsensitive(headers: seq<Header>, renamed: seq<Header>, key: string)
    requires |headers| == |renamed|
    requires forall j :: 0 <= j < |headers| ==>
      ToLower(headers[j].name) == ToLower(renamed[j].name) && headers[j].value == renamed[j].value
    ensures LastValue(headers, key) == LastValue(renamed, key)
  {
    if headers != [] {
      LastValueCaseInsensitive(headers[..|headers| - 1], renamed[..|renamed| - 1], key);
    }
  }

  // ---------------------------------------------------------------------
  // Body

  /** `base64.urlsafe_b64decode(data).decode('utf-8')` on a `body['data']`
      that may be missing. */
  function DecodeData(decode: Decoder, data: Option<string>): Option<string>
  {
    match data
    case None => None
    case Some(d) => decode(d)
  }

  /** The loop over `payload['parts']` from `body` onwards: a text/plain
      part ends it with its text, a text/html part replaces `body` only while
      `body` is still "", other parts are skipped; a missing `mimeType`, or
      data that is missing or does not decode, raises (None). */
  function ScanParts(decode: Decoder, parts: seq<Part>, body: string): Option<string>
    decreases |parts|
  {
    if parts == [] then Some(body)
    else
      match parts[0].mimeType
      case None => None
      case Some(m) =>
        if m == PlainText then DecodeData(decode, parts[0].data)
        else if m == HtmlText && body == "" then
          match DecodeData(decode, parts[0].data)
          case None => None
          case Some(text) => ScanParts(decode, parts[1..], text)
        else ScanParts(decode, parts[1..], body)
  }

  /** `_extract_body`: the body text, or None when extraction raises. */
  function BodyOf(decode: Decoder, payload: Payload): Option<string>
  {
    match payload.parts
    case Some(parts) => ScanParts(decode, parts, "")
    case None =>
      match payload.mimeType
      case None => None
      case Some(m) => if m == PlainText then DecodeData(decode, payload.data) else Some("")
  }

  /** Whether none of `parts` is a text/plain part. */
  predicate NoPlainPart(parts: seq<Part>)
  {
    forall j :: 0 <= j < |parts| ==> parts[j].mimeType != Some(PlainText)
  }

  /** Up to the first text/plain part the scan is sequential: scanning
      `a + b` is scanning `a`, then scanning `b` from the body reached,
      and a raise in `a` is a raise of the whole. */
  lemma {:induction false} ScanPartsSplit(decode: Decoder, a: seq<Part>, b: seq<Part>, body: string)
    requires NoPlainPart(a)
    ensures ScanParts(decode, a + b, body) ==
      match ScanParts(decode, a, body)
      case None => None
      case Some(reached) => ScanParts(decode, b, reached)
  {
    if a == [] {
      assert a + b == b;
    } else {
      var rest := a[1..];
      assert (a + b)[0] == a[0];
      assert (a + b)[1..] == rest + b;
      assert a[0].mimeType != Some(PlainText);
      assert NoPlainPart(rest) by {
        assert forall j :: 0 <= j < |rest| ==> rest[j] == a[j + 1];
      }
      match a[0].mimeType
      case None =>
      case Some(m) =>
        if m == HtmlText && body == "" {
          match DecodeData(decode, a[0].data)
          case None =>
          case Some(text) => ScanPartsSplit(decode, rest, b, text);
        } else {
          ScanPartsSplit(decode, rest, b, body);
        }
    }
  }

  /** The first text/plain part wins: when part `i` is the first text/plain
      part, the body is part `i`'s decoded data unless the parts before it
      already raised, whatever html text had been read until then. */
  lemma FirstPlainPartWins(decode: Decoder, parts: seq<Part>, body: string, i: nat)
    requires i < |parts| && parts[i].mimeType == Some(PlainText)
    requires NoPlainPart(parts[..i])
    ensures ScanParts(decode, parts, body) ==
      if ScanParts(decode, parts[..i], body).Some? then DecodeData(decode, parts[i].data) else None
  {
    ScanPartsSplit(decode, parts[..i], parts[i..], body);
    assert parts[..i] + parts[i..] == parts;
    assert parts[i..][0] == parts[i];
  }

  /** A part without a `mimeType`, reached before any text/plain part,
      makes extraction raise, whatever the parts before it were. */
  lemma MissingMimeTypeRaises(decode: Decoder, parts: seq<Part>, body: string, i: nat)
    requires i < |parts| && parts[i].mimeType.None?
    requires NoPlainPart(parts[..i])
    ensures ScanParts(decode, parts, body).None?
  {
    ScanPartsSplit(decode, parts[..i], parts[i..], body);
    assert parts[..i] + parts[i..] == parts;
    assert parts[i..][0] == parts[i];
  }

  /** The first html part whose data decodes to a non-empty text, or "". */
  function FirstHtmlText(decode: Decoder, parts: seq<Part>): string
  {
    if parts == [] then ""
    else if parts[0].mimeType == Some(HtmlText) && DecodeData(decode, parts[0].data).Some?
      && DecodeData(decode, parts[0].data).value != ""
    then DecodeData(decode, parts[0].data).value
    else FirstHtmlText(decode, parts[1..])
  }

  /** Without a text/plain part a scan that does not raise yields the first
      non-empty html text: an html part sets the body only while it is still
      "". */
  lemma {:induction false} HtmlFallback(decode: Decoder, parts: seq<Part>, body: string)
    requires NoPlainPart(parts)
    ensures ScanParts(decode, parts, body).Some? ==>
      ScanParts(decode, parts, body).value == if body != "" then body else FirstHtmlText(decode, parts)
  {
    if parts != [] && parts[0].mimeType.Some? {
      var rest := parts[1..];
      assert NoPlainPart(rest) by {
        assert forall j :: 0 <= j < |rest| ==> rest[j] == parts[j + 1];
      }
      if parts[0].mimeType.value == HtmlText && body == "" {
        if DecodeData(decode, parts[0].data).Some? {
          HtmlFallback(decode, rest, DecodeData(decode, parts[0].data).value);
        }
      } else {
        HtmlFallback(decode, rest, body);
      }
    }
  }

  /** Once the body is not "", later html parts are never decoded: without a
      text/plain part the scan keeps the body, and raises only for a part
      without a `mimeType`. */
  lemma {:induction false} BodyKeptOnceSet(decode: Decoder, parts: seq<Part>, body: string)
    requires NoPlainPart(parts) && body != ""
    ensures ScanParts(decode, parts, body) ==
      if forall j :: 0 <= j < |parts| ==> parts[j].mimeType.Some? then Some(body) else None
  {
    if parts != [] {
      var rest := parts[1..];
      assert forall j :: 0 <= j < |rest| ==> rest[j] == parts[j + 1];
      if parts[0].mimeType.Some? {
        BodyKeptOnceSet(decode, rest, body);
        assert (forall j :: 0 <= j < |parts| ==> parts[j].mimeType.Some?) <==>
          (forall j :: 0 <= j < |rest| ==> rest[j].mimeType.Some?);
      }
    }
  }

  /** `_extract_body`, scanning the parts in a loop. */
  method ExtractBody(decode: Decoder, payload: Payload) returns (body: Option<string>)
    ensures payload.parts.None? ==>
      body == (if payload.mimeType == Some(PlainText) then DecodeData(decode, payload.data)
               else if payload.mimeType.None? then None
               else Some(""))
    ensures payload.parts.Some? ==> body == ScanParts(decode, payload.parts.value, "")
  {
    var text := "";
    if payload.parts.Some? {
      var parts := payload.parts.value;
      var i := 0;
      while i < |parts|
        invariant 0 <= i <= |parts|
        invariant ScanParts(decode, parts, "") == ScanParts(decode, parts[i..], text)
      {
        var part := parts[i];
        assert parts[i..][1..] == parts[i + 1..];
        if part.mimeType.None? {
          return None;
        }
        if part.mimeType.value == PlainText {
          return DecodeData(decode, part.data);
        } else if part.mimeType.value == HtmlText && text == "" {
          var decoded := DecodeData(decode, part.data);
          if decoded.None? {
            return None;
          }
          text := decoded.value;
        }
        i := i + 1;
      }
      assert parts[i..] == [];
    } else {
      if payload.mimeType.None? {
        return None;
      }
      if payload.mimeType.value == PlainText {
        return DecodeData(decode, payload.data);
      }
    }
    return Some(text);
  }

  // ---------------------------------------------------------------------
  // Messages

  /** What `_parse_email` returns: the record with subject, sender, date,
      body and id, or {} when the payload or the id is missing or the body
      cannot be extracted. */
  function Parsed(decode: Decoder, msg: Message): Record
  {
    if msg.payload.None? || msg.id.None? then map[]
    else
      match BodyOf(decode, msg.payload.value)
      case None => map[]
      case Some(body) =>
        var hs := msg.payload.value.headers;
        map["subject" := LastValue(hs, "subject"), "sender" := LastValue(hs, "from"),
            "date" := LastValue(hs, "date"), "body" := body, "id" := msg.id.value]
  }

  /** A parse yields {} exactly when it fails; otherwise the record holds
      the five fields. */
  lemma ParsedEmptyIffFails(decode: Decoder, msg: Message)
    ensures Parsed(decode, msg) == map[] <==>
      msg.payload.None? || msg.id.None? || BodyOf(decode, msg.payload.value).None?
    ensures Parsed(decode, msg) != map[] ==>
      Parsed(decode, msg).Keys == {"subject", "sender", "date", "body", "id"}
  {
    if msg.payload.Some? && msg.id.Some? && BodyOf(decode, msg.payload.value).Some? {
      assert "id" in Parsed(decode, msg);
    }
  }

  /** `_parse_email`, reading the headers in a loop. */
  method ParseEmail(decode: Decoder, msg: Message) returns (email: Record)
    ensures email == Parsed(decode, msg)
  {
    if msg.payload.None? {
      return map[];
    }
    var payload := msg.payload.value;
    var headers := payload.headers;
    var subject, sender, date := "", "", "";
    for i := 0 to |headers|
      invariant subject == LastValue(headers[..i], "subject")
      invariant sender == LastValue(headers[..i], "from")
      invariant date == LastValue(headers[..i], "date")
    {
      assert headers[..i + 1][..i] == headers[..i];
      var name := ToLower(headers[i].name);
      var value := headers[i].value;
      if name == "subject" {
        subject := value;
      } else if name == "from" {
        sender := value;
      } else if name == "date" {
        date := value;
      }
    }
    assert headers[..|headers|] == headers;
    var body := ExtractBody(decode, payload);
    if body.None? || msg.id.None? {
      return map[];
    }
    email := map["subject" := subject, "sender" := sender, "date" := date, "body" := body.value, "id" := msg.id.value];
  }

  /** What `get_unread_emails` collects from the fetched messages, in order:
      each successful parse, with the {} of failed parses dropped; None
      when fetching one of the messages raised. */
  function Collect(decode: Decoder, fetched: seq<Option<Message>>): Option<seq<Record>>
  {
    if fetched == [] then Some([])
    else
      match Collect(decode, fetched[..|fetched| - 1])
      case None => None
      case Some(emails) =>
        match fetched[|fetched| - 1]
        case None => None
        case Some(m) =>
          var email := Parsed(decode, m);
          Some(if email != map[] then emails + [email] else emails)
  }

  /** Collection raises exactly when one of the fetches did. */
  lemma {:induction false} CollectFailsIffFetchFails(decode: Decoder, fetched: seq<Option<Message>>)
    ensures Collect(decode, fetched).None? <==> exists i :: 0 <= i < |fetched| && fetched[i].None?
  {
    if fetched != [] {
      var init := fetched[..|fetched| - 1];
      CollectFailsIffFetchFails(decode, init);
      assert forall i :: 0 <= i < |init| ==> init[i] == fetched[i];
    }
  }

  /** Collection follows the order of the message ids: collecting a
      concatenation collects each part and joins them in order. */
  lemma {:induction false} CollectAppend(decode: Decoder, a: seq<Option<Message>>, b: seq<Option<Message>>)
    requires Collect(decode, a).Some? && Collect(decode, b).Some?
    ensures Collect(decode, a + b) == Some(Collect(decode, a).value + Collect(decode, b).value)
  {
    if b == [] {
      assert a + b == a;
      assert Collect(decode, a).value + [] == Collect(decode, a).value;
    } else {
      var init, ab := b[..|b| - 1], a + b;
      assert ab[..|ab| - 1] == a + init;
      assert ab[|ab| - 1] == b[|b| - 1];
      assert Collect(decode, init).Some? && b[|b| - 1].Some?;
      CollectAppend(decode, a, init);
      var email := Parsed(decode, b[|b| - 1].value);
      var ca, ci := Collect(decode, a).value, Collect(decode, init).value;
      assert (ca + ci) + [email] == ca + (ci + [email]);
    }
  }

  /** Every collected record is a non-empty parse result. */
  lemma {:induction false} CollectDropsEmpty(decode: Decoder, fetched: seq<Option<Message>>)
    requires Collect(decode, fetched).Some?
    ensures forall r :: r in Collect(decode, fetched).value ==> r != map[] && "id" in r
  {
    if fetched != [] {
      CollectDropsEmpty(decode, fetched[..|fetched| - 1]);
      var m := fetched[|fetched| - 1].value;
      if Parsed(decode, m) != map[] {
        ParsedEmptyIffFails(decode, m);
      }
    }
  }

  /** `get_unread_emails` after the listing call: `listing` is None when
      listing raised, otherwise one fetch per listed id, in order (None
      where that fetch raised). Any error gives the empty list. */
  method GetUnreadEmails(decode: Decoder, listing: Option<seq<Option<Message>>>) returns (emails: seq<Record>)
    ensures listing.None? ==> emails == []
    ensures listing.Some? ==>
      emails == (match Collect(decode, listing.value) case None => [] case Some(es) => es)
  {
    if listing.None? {
      return [];
    }
    var fetched := listing.value;
    emails := [];
    for i := 0 to |fetched|
      invariant Collect(decode, fetched[..i]) == Some(emails)
    {
      assert fetched[..i + 1][..i] == fetched[..i];
      if fetched[i].None? {
        CollectFailsIffFetchFails(decode, fetched);
        return [];
      }
      var emailData := ParseEmail(decode, fetched[i].value);
      if emailData != map[] {
        emails := emails + [emailData];
      }
    }
    assert fetched[..|fetched|] == fetched;
  }
}
