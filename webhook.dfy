// The Discord webhook queue of server/network/webhook/webhook.cpp: messages become JSON payloads,
// payloads wait in a FIFO queue, and each delivery attempt examines only the front task.
//
// The HTTP request is not modelled: its outcome is the response code given to SendWebhook.
// The configuration values and the formatted time of the footer are parameters.
module Webhooks {
  import opened Ints
  import opened Wrappers

  datatype WebhookTask = WebhookTask(payload: string, url: string)

  /** DISCORD_WEBHOOK_URL, SERVER_NAME and DISCORD_SEND_FOOTER. */
  datatype WebhookConfig = WebhookConfig(webhookUrl: string, serverName: string, sendFooter: bool)

  // ---------------------------------------------------------------- decimal numbers

  predicate IsDigit(c: char) {
    '0' as int <= c as int <= '9' as int
  }

  function DigitChar(d: nat): (c: char)
    requires d < 10
    ensures IsDigit(c) && c as int - '0' as int == d
  {
    ('0' as int + d) as char
  }

  /** How `operator<<` writes a non-negative integer: decimal digits, no leading zero. */
  function Decimal(n: nat): (r: string)
    ensures |r| >= 1
    ensures forall i :: 0 <= i < |r| ==> IsDigit(r[i])
    ensures r[0] == '0' ==> n == 0
  {
    if n < 10 then [DigitChar(n)] else Decimal(n / 10) + [DigitChar(n % 10)]
  }

  /** The number a string of decimal digits denotes. */
  function DecimalValue(s: string): nat
    requires forall i :: 0 <= i < |s| ==> IsDigit(s[i])
  {
    if s == [] then 0
    else
      assert IsDigit(s[|s| - 1]);
      DecimalValue(s[..|s| - 1]) * 10 + (s[|s| - 1] as int - '0' as int)
  }

  lemma {:induction false} DecimalRoundTrip(n: nat)
    ensures DecimalValue(Decimal(n)) == n
  {
    if n >= 10 {
      var r := Decimal(n);
      assert r[..|r| - 1] == Decimal(n / 10);
      DecimalRoundTrip(n / 10);
    }
  }

  // ---------------------------------------------------------------- payloads (getPayload)

  const CONTENT_OPEN := "{ \"content\": \""
  const CONTENT_CLOSE := "\" }"
  const TITLE_OPEN := "{ \"embeds\": [{ \"title\": \""
  const FIELD_CLOSE := "\", "
  const DESCRIPTION_OPEN := "\"description\": \""
  const FOOTER_OPEN := "\"footer\": { \"text\": \""
  const FOOTER_CLOSE := "\" }, "
  const COLOR_OPEN := "\"color\": "
  const EMBED_CLOSE := " }] }"

  /** The footer: the server name, " | " and the formatted current time. */
  function FooterText(serverName: string, timeBuf: string): string {
    serverName + " | " + timeBuf
  }

  /** The description field, when the message is not empty, in front of `rest`. */
  function DescriptionPart(message: string, rest: string): string {
    if message != [] then DESCRIPTION_OPEN + (message + (FIELD_CLOSE + rest)) else rest
  }

  /** The footer field, when enabled, in front of `rest`. */
  function FooterPart(sendFooter: bool, footerText: string, rest: string): string {
    if sendFooter then FOOTER_OPEN + (footerText + (FOOTER_CLOSE + rest)) else rest
  }

  /** The colour field, when the colour is not negative, and the end of the embed. */
  function ColorPart(color: int32): string {
    if color >= 0 then COLOR_OPEN + (Decimal(color as nat) + EMBED_CLOSE) else EMBED_CLOSE
  }

  /** getPayload (webhook.cpp:123-151), with the footer text already formatted. */
  function GetPayload(title: string, message: string, color: int32, embed: bool, sendFooter: bool, footerText: string): string {
    if embed then
      TITLE_OPEN + (title + (FIELD_CLOSE +
        DescriptionPart(message, FooterPart(sendFooter, footerText, ColorPart(color)))))
    else
      CONTENT_OPEN + ((if message != [] then message else title) + CONTENT_CLOSE)
  }

  /** What a payload carries: plain content, or an embed with its optional fields. */
  datatype Payload =
    | Content(text: string)
    | Embed(title: string, description: Option<string>, footer: Option<string>, color: Option<nat>)

  /** The payload getPayload is meant to describe: an embed lists the description only for a
      non-empty message, the footer only when enabled and the colour only when non-negative;
      plain content is the message, or the title when the message is empty. */
  function Intended(title: string, message: string, color: int32, embed: bool, sendFooter: bool, footerText: string): Payload {
    if embed then
      Embed(title,
            if message != [] then Some(message) else None,
            if sendFooter then Some(footerText) else None,
            if color >= 0 then Some(color as nat) else None)
    else Content(if message != [] then message else title)
  }

  // ---------------------------------------------------------------- reading a payload back

  /** The index of the first quote, or the length when there is none. */
  function QuoteIndex(s: string): (r: nat)
    ensures r <= |s| && '"' !in s[..r]
    ensures r < |s| ==> s[r] == '"'
  {
    if s == [] || s[0] == '"' then 0
    else
      var k := QuoteIndex(s[1..]);
      assert s[..k + 1] == [s[0]] + s[1..][..k];
      k + 1
  }

  /** The number of leading digits. */
  function DigitRun(s: string): (r: nat)
    ensures r <= |s| && forall i :: 0 <= i < r ==> IsDigit(s[i])
    ensures r < |s| ==> !IsDigit(s[r])
  {
    if s == [] || !IsDigit(s[0]) then 0 else DigitRun(s[1..]) + 1
  }

  /** An optional quoted field: `open`, text up to the next quote, then `close`. */
  function ReadField(s: string, open: string, close: string): Option<(Option<string>, string)> {
    if open <= s then
      var body := s[|open|..];
      var k := QuoteIndex(body);
      if close <= body[k..] then Some((Some(body[..k]), body[k..][|close|..])) else None
    else Some((None, s))
  }

  /** The optional colour field: `"color": ` and at least one digit. */
  function ReadColor(s: string): Option<(Option<nat>, string)> {
    if COLOR_OPEN <= s then
      var body := s[|COLOR_OPEN|..];
      var k := DigitRun(body);
      if k == 0 then None else Some((Some(DecimalValue(body[..k])), body[k..]))
    else Some((None, s))
  }

  function ParseEmbed(s: string): Option<Payload> {
    match ReadField(s, TITLE_OPEN, FIELD_CLOSE)
    case Some((Some(title), r1)) => (
      match ReadField(r1, DESCRIPTION_OPEN, FIELD_CLOSE)
      case Some((description, r2)) => (
        match ReadField(r2, FOOTER_OPEN, FOOTER_CLOSE)
        case Some((footer, r3)) => (
          match ReadColor(r3)
          case Some((color, r4)) =>
            if r4 == EMBED_CLOSE then Some(Embed(title, description, footer, color)) else None
          case None => None)
        case None => None)
      case None => None)
    case _ => None
  }

  function ParseContent(s: string): Option<Payload> {
    if CONTENT_OPEN <= s && |s| >= |CONTENT_OPEN| + |CONTENT_CLOSE| then
      var text := s[|CONTENT_OPEN|..|s| - |CONTENT_CLOSE|];
      if s[|s| - |CONTENT_CLOSE|..] == CONTENT_CLOSE && '"' !in text then Some(Content(text)) else None
    else None
  }

  /** A reader for the two payload shapes. */
  function ParsePayload(s: string): Option<Payload> {
    if CONTENT_OPEN <= s then ParseContent(s) else ParseEmbed(s)
  }

  lemma NotPrefixAt(p: string, s: string, k: nat)
    requires k < |p| && k < |s| && p[k] != s[k]
    ensures !(p <= s)
  {
  }

  lemma NotPrefixOfConcat(p: string, a: string, b: string, k: nat)
    requires k < |p| && k < |a| && p[k] != a[k]
    ensures !(p <= a + b)
  {
    assert (a + b)[k] == a[k];
  }

  lemma QuoteIndexAt(text: string, rest: string)
    requires '"' !in text && rest != [] && rest[0] == '"'
    ensures QuoteIndex(text + rest) == |text|
  {
    var s := text + rest;
    assert s[|text|] == '"';
    assert forall i :: 0 <= i < |text| ==> s[i] == text[i];
  }

  lemma ReadFieldPresent(open: string, text: string, close: string, rest: string)
    requires '"' !in text && close != [] && close[0] == '"'
    ensures ReadField(open + (text + (close + rest)), open, close) == Some((Some(text), rest))
  {
    var s := open + (text + (close + rest));
    assert s[..|open|] == open;
    var body := s[|open|..];
    assert body == text + (close + rest);
    QuoteIndexAt(text, close + rest);
    assert body[|text|..] == close + rest;
    assert (close + rest)[..|close|] == close;
    assert (close + rest)[|close|..] == rest;
  }

  lemma ReadFieldAbsent(s: string, open: string, close: string)
    requires !(open <= s)
    ensures ReadField(s, open, close) == Some((None, s))
  {
  }

  lemma ReadColorOutcome(color: int32)
    ensures ReadColor(ColorPart(color)) == Some((if color >= 0 then Some(color as nat) else None, EMBED_CLOSE))
  {
    if color >= 0 {
      var digits := Decimal(color as nat);
      var s := COLOR_OPEN + (digits + EMBED_CLOSE);
      assert s[..|COLOR_OPEN|] == COLOR_OPEN;
      var body := s[|COLOR_OPEN|..];
      assert body == digits + EMBED_CLOSE;
      assert body[|digits|] == ' ';
      assert forall i :: 0 <= i < |digits| ==> body[i] == digits[i];
      var k := DigitRun(body);
      assert body[..k] == digits;
      DecimalRoundTrip(color as nat);
    } else {
      NotPrefixAt(COLOR_OPEN, EMBED_CLOSE, 0);
    }
  }

  /** What follows the footer field starts with the colour field or closes the embed. */
  lemma NoFooterHere(color: int32)
    ensures !(FOOTER_OPEN <= ColorPart(color))
    ensures !(DESCRIPTION_OPEN <= ColorPart(color))
  {
    if color >= 0 {
      var rest := Decimal(color as nat) + EMBED_CLOSE;
      NotPrefixOfConcat(FOOTER_OPEN, COLOR_OPEN, rest, 1);
      NotPrefixOfConcat(DESCRIPTION_OPEN, COLOR_OPEN, rest, 1);
    } else {
      NotPrefixAt(FOOTER_OPEN, EMBED_CLOSE, 0);
      NotPrefixAt(DESCRIPTION_OPEN, EMBED_CLOSE, 0);
    }
  }

  /** What follows the description field starts with the footer or colour field or closes the
      embed. */
  lemma NoDescriptionHere(sendFooter: bool, footerText: string, color: int32)
    ensures !(DESCRIPTION_OPEN <= FooterPart(sendFooter, footerText, ColorPart(color)))
  {
    if sendFooter {
      NotPrefixOfConcat(DESCRIPTION_OPEN, FOOTER_OPEN, footerText + (FOOTER_CLOSE + ColorPart(color)), 1);
    } else {
      NoFooterHere(color);
    }
  }

  lemma ReadFooterOutcome(sendFooter: bool, footerText: string, color: int32)
    requires '"' !in footerText
    ensures ReadField(FooterPart(sendFooter, footerText, ColorPart(color)), FOOTER_OPEN, FOOTER_CLOSE) ==
      Some((if sendFooter then Some(footerText) else None, ColorPart(color)))
  {
    if sendFooter {
      ReadFieldPresent(FOOTER_OPEN, footerText, FOOTER_CLOSE, ColorPart(color));
    } else {
      NoFooterHere(color);
      ReadFieldAbsent(ColorPart(color), FOOTER_OPEN, FOOTER_CLOSE);
    }
  }

  lemma ReadDescriptionOutcome(message: string, sendFooter: bool, footerText: string, color: int32)
    requires '"' !in message
    ensures var tail := FooterPart(sendFooter, footerText, ColorPart(color));
      ReadField(DescriptionPart(message, tail), DESCRIPTION_OPEN, FIELD_CLOSE) ==
      Some((if message != [] then Some(message) else None, tail))
  {
    var tail := FooterPart(sendFooter, footerText, ColorPart(color));
    if message != [] {
      ReadFieldPresent(DESCRIPTION_OPEN, message, FIELD_CLOSE, tail);
    } else {
      NoDescriptionHere(sendFooter, footerText, color);
      ReadFieldAbsent(tail, DESCRIPTION_OPEN, FIELD_CLOSE);
    }
  }

  /** Every payload getPayload builds from quote-free texts reads back as the payload it is
      meant to describe, so the fields present are exactly the ones the rules select. */
  lemma PayloadRoundTrip(title: string, message: string, color: int32, embed: bool, sendFooter: bool, footerText: string)
    requires '"' !in title && '"' !in message && '"' !in footerText
    ensures ParsePayload(GetPayload(title, message, color, embed, sendFooter, footerText)) ==
      Some(Intended(title, message, color, embed, sendFooter, footerText))
  {
    if embed {
      EmbedRoundTrip(title, message, color, sendFooter, footerText);
    } else {
      ContentRoundTrip(if message != [] then message else title);
    }
  }

  lemma EmbedRoundTrip(title: string, message: string, color: int32, sendFooter: bool, footerText: string)
    requires '"' !in title && '"' !in message && '"' !in footerText
    ensures ParsePayload(GetPayload(title, message, color, true, sendFooter, footerText)) ==
      Some(Intended(title, message, color, true, sendFooter, footerText))
  {
    var t2 := ColorPart(color);
    var t1 := FooterPart(sendFooter, footerText, t2);
    var t0 := DescriptionPart(message, t1);
    var s := TITLE_OPEN + (title + (FIELD_CLOSE + t0));
    assert GetPayload(title, message, color, true, sendFooter, footerText) == s;
    NotPrefixOfConcat(CONTENT_OPEN, TITLE_OPEN, title + (FIELD_CLOSE + t0), 3);
    ReadFieldPresent(TITLE_OPEN, title, FIELD_CLOSE, t0);
    ReadDescriptionOutcome(message, sendFooter, footerText, color);
    ReadFooterOutcome(sendFooter, footerText, color);
    ReadColorOutcome(color);
    ParseEmbedSteps(s, title, t0, t1, t2,
                    if message != [] then Some(message) else None,
                    if sendFooter then Some(footerText) else None,
                    if color >= 0 then Some(color as nat) else None);
  }

  lemma ParseEmbedSteps(s: string, title: string, r1: string, r2: string, r3: string,
                        description: Option<string>, footer: Option<string>, color: Option<nat>)
    requires !(CONTENT_OPEN <= s)
    requires ReadField(s, TITLE_OPEN, FIELD_CLOSE) == Some((Some(title), r1))
    requires ReadField(r1, DESCRIPTION_OPEN, FIELD_CLOSE) == Some((description, r2))
    requires ReadField(r2, FOOTER_OPEN, FOOTER_CLOSE) == Some((footer, r3))
    requires ReadColor(r3) == Some((color, EMBED_CLOSE))
    ensures ParsePayload(s) == Some(Embed(title, description, footer, color))
  {
  }

  lemma ContentRoundTrip(text: string)
    requires '"' !in text
    ensures ParsePayload(CONTENT_OPEN + (text + CONTENT_CLOSE)) == Some(Content(text))
  {
    var s := CONTENT_OPEN + (text + CONTENT_CLOSE);
    assert s[..|CONTENT_OPEN|] == CONTENT_OPEN;
    assert s[|CONTENT_OPEN|..|s| - |CONTENT_CLOSE|] == text;
    assert s[|s| - |CONTENT_CLOSE|..] == CONTENT_CLOSE;
  }

  /** A plain payload is exactly `{ "content": "<m>" }` with the message, or the title when the
      message is empty; the colour and the footer play no part in it. */
  lemma ContentPayloadShape(title: string, message: string, color: int32, sendFooter: bool, footerText: string)
    ensures GetPayload(title, message, color, false, sendFooter, footerText) ==
      "{ \"content\": \"" + (if message != [] then message else title) + "\" }"
    ensures GetPayload(title, message, color, false, sendFooter, footerText) ==
      GetPayload(title, message, -1, false, false, [])
  {
  }

  // ---------------------------------------------------------------- the queue

  /** sendMessage(title, message, color, url, embed) (webhook.cpp:59-69): an empty url falls back
      to the configured one; nothing is queued when the url, the title or the message is empty. */
  function EnqueueMessage(q: seq<WebhookTask>, title: string, message: string, color: int32, url: string, embed: bool,
                          config: WebhookConfig, timeBuf: string): seq<WebhookTask> {
    var target := if url == [] then config.webhookUrl else url;
    if target == [] || title == [] || message == [] then q
    else q + [WebhookTask(GetPayload(title, message, color, embed, config.sendFooter, FooterText(config.serverName, timeBuf)), target)]
  }

  /** sendMessage(message, url) (webhook.cpp:71-81): plain content, no title, colour -1. */
  function EnqueuePlain(q: seq<WebhookTask>, message: string, url: string, config: WebhookConfig, timeBuf: string): seq<WebhookTask> {
    var target := if url == [] then config.webhookUrl else url;
    if target == [] || message == [] then q
    else q + [WebhookTask(GetPayload([], message, -1, false, config.sendFooter, FooterText(config.serverName, timeBuf)), target)]
  }

  /** The codes after which sendWebhook drops the front task: not -1 (no response), not 429 or
      504 (retried), and below 300. */
  predicate Delivered(code: int) {
    code != -1 && code != 429 && code != 504 && code < 300
  }

  /** sendWebhook (webhook.cpp:153-189), given the code the request for the front task returned. */
  function AfterResponse(q: seq<WebhookTask>, code: int): (r: seq<WebhookTask>)
    ensures q == [] ==> r == []
  {
    if q != [] && Delivered(code) then q[1..] else q
  }

  /** The tasks a series of delivery attempts drops, in the order it drops them. */
  function Dropped(q: seq<WebhookTask>, codes: seq<int>): seq<WebhookTask>
    decreases |codes|
  {
    if codes == [] then []
    else (if q != [] && Delivered(codes[0]) then [q[0]] else []) + Dropped(AfterResponse(q, codes[0]), codes[1..])
  }

  /** The queue a series of delivery attempts leaves. */
  function Drain(q: seq<WebhookTask>, codes: seq<int>): seq<WebhookTask>
    decreases |codes|
  {
    if codes == [] then q else Drain(AfterResponse(q, codes[0]), codes[1..])
  }

  /** The queue keeps the order of sendPayload: whatever the responses, the tasks dropped are
      a prefix of the queue in order, and the queue left is the rest. */
  lemma {:induction false} FifoOrder(q: seq<WebhookTask>, codes: seq<int>)
    ensures Dropped(q, codes) + Drain(q, codes) == q
    decreases |codes|
  {
    if codes != [] {
      var q1 := AfterResponse(q, codes[0]);
      FifoOrder(q1, codes[1..]);
      if q != [] && Delivered(codes[0]) {
        assert [q[0]] + q[1..] == q;
      }
    }
  }

  /** A failed request, a rate limit, a gateway timeout or any code from 300 up keeps the queue
      as it was; a success drops exactly the front task. */
  lemma ResponseOutcome(q: seq<WebhookTask>, code: int)
    ensures code == -1 || code == 429 || code == 504 || code >= 300 ==> AfterResponse(q, code) == q
    ensures q != [] && Delivered(code) ==> [q[0]] + AfterResponse(q, code) == q
  {
    if q != [] && Delivered(code) {
      assert [q[0]] + q[1..] == q;
    }
  }

  /** Both sendMessage overloads queue at most one task, at the back, with the defaulted url and
      the payload getPayload builds, and nothing at all when a required text is empty. */
  lemma EnqueueOutcome(q: seq<WebhookTask>, title: string, message: string, color: int32, url: string, embed: bool,
                       config: WebhookConfig, timeBuf: string)
    ensures var target := if url == [] then config.webhookUrl else url;
      var r := EnqueueMessage(q, title, message, color, url, embed, config, timeBuf);
      (target == [] || title == [] || message == [] <==> r == q) &&
      (r != q ==> (|r| == |q| + 1 && r[..|q|] == q && r[|q|].url == target &&
        r[|q|].payload == GetPayload(title, message, color, embed, config.sendFooter, FooterText(config.serverName, timeBuf))))
    ensures var target := if url == [] then config.webhookUrl else url;
      var r := EnqueuePlain(q, message, url, config, timeBuf);
      (target == [] || message == [] <==> r == q) &&
      (r != q ==> (r[..|q|] == q && r[|q|] ==
        WebhookTask(CONTENT_OPEN + (message + CONTENT_CLOSE), target)))
  {
    var target := if url == [] then config.webhookUrl else url;
    var r := EnqueueMessage(q, title, message, color, url, embed, config, timeBuf);
    if r != q {
      assert r[..|q|] == q;
    }
    if !(target == [] || title == [] || message == []) {
      assert |r| == |q| + 1;
    }
    var p := EnqueuePlain(q, message, url, config, timeBuf);
    if !(target == [] || message == []) {
      assert |p| == |q| + 1;
      assert p[..|q|] == q;
    }
  }

  class Webhook {
    var webhooks: seq<WebhookTask>

    constructor ()
      ensures webhooks == []
    {
      webhooks := [];
    }

    /** sendPayload (webhook.cpp:54-57): append at the back. */
    method SendPayload(payload: string, url: string)
      modifies this
      ensures webhooks == old(webhooks) + [WebhookTask(payload, url)]
    {
      webhooks := webhooks + [WebhookTask(payload, url)];
    }

    method SendMessage(title: string, message: string, color: int32, url: string, embed: bool,
                       config: WebhookConfig, timeBuf: string)
      modifies this
      ensures webhooks == EnqueueMessage(old(webhooks), title, message, color, url, embed, config, timeBuf)
    {
      var target := url;
      if target == [] {
        target := config.webhookUrl;
      }
      if target == [] || title == [] || message == [] {
        return;
      }
      SendPayload(GetPayload(title, message, color, embed, config.sendFooter, FooterText(config.serverName, timeBuf)), target);
    }

    method SendPlainMessage(message: string, url: string, config: WebhookConfig, timeBuf: string)
      modifies this
      ensures webhooks == EnqueuePlain(old(webhooks), message, url, config, timeBuf)
    {
      var target := url;
      if target == [] {
        target := config.webhookUrl;
      }
      if target == [] || message == [] {
        return;
      }
      SendPayload(GetPayload([], message, -1, false, config.sendFooter, FooterText(config.serverName, timeBuf)), target);
    }

    /** One delivery attempt: `sent` is the task whose request returned `responseCode`, always the
        front one, and no task when the queue is empty. */
    method SendWebhook(responseCode: int32) returns (sent: Option<WebhookTask>)
      modifies this
      ensures sent == (if old(webhooks) == [] then None else Some(old(webhooks)[0]))
      ensures webhooks == AfterResponse(old(webhooks), responseCode)
    {
      if webhooks == [] {
        return None;
      }
      var task := webhooks[0];
      sent := Some(task);
      if responseCode == -1 {
        return;
      }
      if responseCode == 429 || responseCode == 504 {
        return;
      }
      if responseCode >= 300 {
        return;
      }
      webhooks := webhooks[1..];
    }
  }
}
