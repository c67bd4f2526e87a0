# Email summarizer: a verified model of its core

The system reads the unread messages of a mailbox, has a local language
model rate each one (priority 1 to 10, action items, a short summary), and
texts the user. It sends a short alert about the high-priority emails and a
full report of all of them. The report goes in numbered chunks when it is
longer than 1000 characters.

The model covers the deterministic logic between the three outside services:
- the language model;
- the mail provider's API;
- the messaging application.

The modules are:

- `Wrappers` (`wrappers.dfy`): `Option`, and `Record`, the string-to-string
  dictionaries the components pass to each other. The empty map is the `{}`
  that a failed parse returns.
- `Text` (`text.dfy`): the pieces of Python's `str` the code relies on:
  - `s[:n]`;
  - `strip()` over Python's whitespace class;
  - ASCII `lower()`;
  - `str()` of an integer;
  - `', '.join`;
  - line counting.
- `Summarizer` (`summarizer.dfy`), for `EmailSummarizer`:
  - the prompt;
  - the batch analysis against an abstract model oracle, with its fixed
    fallback;
  - the priority filter;
  - the short alert, built line by line in `FormatPrioritySummary`;
  - the full report, built block by block in `FormatAllEmailsSummary`.

  The two formatting methods are proved equal to specification functions,
  and `AnalyzeBatch` is stated entry by entry through the oracle's answer
  or the fallback. The lemmas prove what the text means about the
  specification functions:
  - how it opens;
  - how many lines it has;
  - which entries it shows;
  - that the "...and K more" suffix appears exactly when there are over
    three entries;
  - that the "no emails" texts appear exactly for empty input.
- `Notifier` (`notifier.dfy`), for `NotificationSender`: a class whose `log`
  field records every message handed to the messaging application. The
  application's answer is the `delivers` function of the log so far.
  - `SendFullSummary` is proved against a `Deliver` function that stops at
    the first refusal.
  - The chunk lemmas prove:
    - the chunk count and sizes;
    - that joining the chunks gives the report back;
    - that message i is the banner numbered i+1 followed by characters
      1000*i to 1000*(i+1) of the report, and that different messages carry
      different banners;
    - that the messages carry the report and nothing else.
- `Gmail` (`gmail.dfy`), for `GmailFetcher`: the message payload as
  datatypes, and base64url plus UTF-8 decoding as an opaque `Decoder`
  function that may fail.
  - `ParseEmail` reads the headers in a loop.
  - `ExtractBody` scans the MIME parts in a loop with early exits.
  - `GetUnreadEmails` collects the parsed records.
  - Each is proved against a specification function:
    - `LastValue` for the headers;
    - `ScanParts` and `BodyOf` for the body;
    - `Parsed` for the record;
    - `Collect` for the list.

Python exceptions are modelled as `None`. A `try` that turns an exception into
a value turns `None` into that value: the fallback analysis, `{}` or `[]`.

The priority markers are the strings the source file actually contains. That
file stores the UTF-8 bytes of the red, yellow and green circle emoji re-read
as Windows-1252 text, so each marker is four characters, such as `ðŸ”´`. The
model uses these exact characters. All that matters to the proofs is that the
three markers are distinct and hold no line break.

## Model

| member | source | states |
|---|---|---|
| Summarizer.PromptFields | src/email_summarizer.py:22-38 | The prompt holds the subject, the sender and the content verbatim, at fixed offsets and in that order, between the fixed instruction text and the priority rubric. |
| Summarizer.AnalyzeEmail | src/email_summarizer.py:18-63 | The analysis is the oracle's answer to this email's prompt when it gives one. When the call or its validation fails it is exactly the fallback: priority 5, no action items, the fixed "Could not analyze" summary. |
| Summarizer.AnalyzeBatch | src/email_summarizer.py:40-83 | One result per email, in order. Result i keeps email i as its original. Its analysis is the oracle's answer for the prompt built from that email's body, subject and sender ("" when a key is missing). When the call fails it is exactly priority 5, no action items, the fixed "Could not analyze" summary. |
| Summarizer.HighPriority | src/email_summarizer.py:85-88 | The filtered list is no longer than its input, and every entry in it has priority at least the threshold. |
| Summarizer.HighPriorityAppend | src/email_summarizer.py:87-88 | Filtering a concatenation is the concatenation of the filtered parts, so relative order is preserved. |
| Summarizer.HighPriorityMembers | src/email_summarizer.py:87-88 | An entry is in the result exactly when it is in the input and its priority reaches the threshold. |
| Summarizer.HighPriorityKeepsAll | src/email_summarizer.py:87-88 | When every entry reaches the threshold the result is the whole input. |
| Summarizer.AlertDetail | src/email_summarizer.py:102-106 | With action items, the detail is the first action item cut to its first min(length, 60) characters. Without them it is the summary cut the same way. |
| Summarizer.FormatPrioritySummary | src/email_summarizer.py:90-111 | The text built line by line equals `PrioritySummary`: "No high priority emails." for an empty list, otherwise the stripped header, at most three numbered items and the "...and K more" suffix past three. |
| Summarizer.PrioritySummaryEmptyIff | src/email_summarizer.py:92-93 | The alert is "No high priority emails." exactly when the list is empty. |
| Summarizer.AlertFirstLine | src/email_summarizer.py:96-106 | The header is followed directly by "1. ", the first entry's shown subject and the " - " separator. |
| Summarizer.AlertTextOpens | src/email_summarizer.py:96-109 | Before stripping, the alert starts with the header and item 1, and the "-" after the first subject is in place. |
| Summarizer.PrioritySummaryOpens | src/email_summarizer.py:95-111 | A non-empty alert, after stripping, still starts with "You have N high priority email(s):" followed by "1. ". |
| Summarizer.AlertTextOverThree | src/email_summarizer.py:108-111 | With over three entries the unstripped alert is the three items followed by "...and K more", and stripping leaves it unchanged. |
| Summarizer.PrioritySummaryOverThree | src/email_summarizer.py:108-111 | With over three entries the alert is exactly items 1 to 3 followed by "...and K more" with K = count - 3. |
| Summarizer.AlertTextLastChar | src/email_summarizer.py:98-109 | Before stripping, the alert ends with the "e" of "more" exactly when there are over three entries, and otherwise with the last item's line break. So the suffix appears iff count > 3. |
| Summarizer.AlertHeaderPlural | src/email_summarizer.py:95-96 | The header opens with "You have N high priority email", and the next character is "s" exactly when N > 1. |
| Summarizer.AlertHeaderLines | src/email_summarizer.py:96 | The header, with or without the plural "s", is one line. |
| Summarizer.AlertLineLines | src/email_summarizer.py:104-106 | An item is one line when its subject and detail hold no line break. |
| Summarizer.AlertItemsLines | src/email_summarizer.py:96-106 | With k items shown the text has k + 1 line breaks (the header plus one per item) when no shown field holds a line break. |
| Summarizer.AlertItemsOnlyShown | src/email_summarizer.py:98-106 | The text for k items depends only on the count and the first k entries, item i coming from entry i. |
| Summarizer.PrioritySummaryOnlyFirstThree | src/email_summarizer.py:98-109 | Entries after the third affect the alert only through the count. |
| Summarizer.Marker | src/email_summarizer.py:124 | The high marker is chosen exactly for priority >= 8, the medium marker exactly for 6 and 7, and the low marker exactly below 6. |
| Summarizer.FormatAllEmailsSummary | src/email_summarizer.py:113-135 | The text built block by block equals `AllEmailsSummary`: "No unread emails." for an empty list, otherwise the stripped header and one block per email, in order. |
| Summarizer.AllEmailsSummaryEmptyIff | src/email_summarizer.py:115-116 | The report is "No unread emails." exactly when the list is empty. |
| Summarizer.AllEmailsSummaryOpens | src/email_summarizer.py:115-135 | A non-empty report, after stripping, starts with "Summary of N unread emails:", a blank line, "1. " and the first email's marker. |
| Summarizer.ReportTitleLines | src/email_summarizer.py:126 | The title line (number, marker, priority, subject) holds exactly as many line breaks as its subject. |
| Summarizer.ReportEntryLines | src/email_summarizer.py:126-128 | Title, "From:" and summary end in three line breaks. The entry holds those three plus every line break inside the subject, the sender or the summary. |
| Summarizer.ReportBlockLines | src/email_summarizer.py:126-133 | For any fields, a block holds 4 line breaks plus those inside subject, sender and summary. With action items it holds 1 more for the "Actions:" line plus those inside the joined items. |
| Summarizer.ReportBlockLinesPlain | src/email_summarizer.py:126-133 | When subject, sender, summary and action items hold no line break, a block has exactly 5 line breaks with action items and 4 without, so the "Actions:" line appears exactly when the list is non-empty. |
| Summarizer.ReportTextOnlyShown | src/email_summarizer.py:120-133 | The report for k blocks depends only on the count and the first k entries, block i coming from entry i. |
| Notifier.Chunks | src/notification_sender.py:48 | There are ceil(len/1000) chunks, none empty and none over 1000 characters. |
| Notifier.ChunkMessageAt | src/notification_sender.py:48-50 | Message i of the chunked path is the banner "Summary (i+1/N)", with N the chunk count, followed by characters 1000*i up to min(1000*(i+1), len) of the report. |
| Notifier.ChunkBannerInjective | src/notification_sender.py:50 | Banners with different message numbers differ, because the number reads back from its digits. |
| Notifier.ChunkMessagesLabelled | src/notification_sender.py:49-50 | Messages i and j open with their own banners, and those banners differ when i and j differ. |
| Notifier.ChunkSizes | src/notification_sender.py:46-48 | For non-empty text there are ceil(len/1000) chunks, at least two for text over 1000 characters. Every chunk but the last holds exactly 1000 characters, and the last holds 1 to 1000. |
| Notifier.ChunksConcat | src/notification_sender.py:48 | Joining the chunks in order gives back the text exactly. |
| Notifier.ChunkMessagesCarryReport | src/notification_sender.py:48-50 | Dropping each message's banner and joining the rest in order gives back the report. |
| Notifier.DeliverAllAccepted | src/notification_sender.py:49-53 | When every send succeeds, all messages are sent, in order, and the result is true. |
| Notifier.DeliverFirstRefusal | src/notification_sender.py:51-52 | When message k is the first to fail, messages 0 to k are sent in order, nothing after k is sent, and the result is false. |
| Notifier.DeliverOkIffAllAccepted | src/notification_sender.py:49-53 | The chunked path returns true exactly when every chunk send succeeds. |
| Notifier.NotificationSender.constructor | src/notification_sender.py:6-7 | The sender keeps its phone number and starts with nothing sent. |
| Notifier.NotificationSender.SendIMessage | src/notification_sender.py:9-36 | One message is appended to the log. The result is the messaging application's answer for it. |
| Notifier.NotificationSender.SendPriorityAlert | src/notification_sender.py:38-41 | Exactly one message, the alert banner followed by the summary, is sent. The result is that send's answer. |
| Notifier.NotificationSender.SendFullSummary | src/notification_sender.py:43-56 | At most 1000 characters: exactly one message, the summary banner followed by the text, and that send's answer. Longer: the log and result are those of delivering the numbered chunk messages in order, stopping at the first failure. |
| Gmail.LastValueIsLastMatch | src/gmail_fetcher.py:84-97 | When header j is the last one whose lower-cased name is the key, the field is header j's value. |
| Gmail.LastValueNoMatch | src/gmail_fetcher.py:84-97 | A field with no matching header is "". |
| Gmail.LastValueIgnoresOthers | src/gmail_fetcher.py:92-97 | Inserting a header with another name, anywhere, does not change the field. |
| Gmail.LastValueCaseInsensitive | src/gmail_fetcher.py:89-97 | Renaming headers to names with the same lower-case form does not change any field. |
| Gmail.ScanPartsSplit | src/gmail_fetcher.py:119-126 | Before the first text/plain part the scan is sequential: scanning a + b is scanning a, then b from the body reached, and a failure in a is a failure of the whole. |
| Gmail.FirstPlainPartWins | src/gmail_fetcher.py:119-123 | When part i is the first text/plain part, the body is its decoded data, unless the parts before it already failed. Whatever html text was read before is discarded. |
| Gmail.HtmlFallback | src/gmail_fetcher.py:119-126 | Without a text/plain part, a scan that does not fail yields the body it started with if that was non-empty, and otherwise the first non-empty decoded html text, or "". |
| Gmail.BodyKeptOnceSet | src/gmail_fetcher.py:124-126 | Once the body is non-empty, later html parts are never decoded. Without a text/plain part the body is kept, and the scan fails only for a part that has no mimeType. |
| Gmail.MissingMimeTypeRaises | src/gmail_fetcher.py:119-124 | A part without a mimeType, reached before any text/plain part, makes extraction fail whatever the parts before it hold. |
| Gmail.ExtractBody | src/gmail_fetcher.py:114-132 | Multipart payloads give the part scan's result. Single-part payloads give the decoded data for text/plain, "" for another mimeType, and failure when the mimeType is missing. |
| Gmail.ParsedEmptyIffFails | src/gmail_fetcher.py:77-112 | A parse returns {} exactly when the payload or the id is missing or the body cannot be extracted. Otherwise the record has exactly the keys subject, sender, date, body and id. |
| Gmail.ParseEmail | src/gmail_fetcher.py:77-112 | The header loop and the body extraction give the record `Parsed` describes: the last subject, from and date headers, the body and the id, or {} on failure. |
| Gmail.CollectFailsIffFetchFails | src/gmail_fetcher.py:60-75 | Collecting fails exactly when one of the message fetches fails. |
| Gmail.CollectAppend | src/gmail_fetcher.py:60-69 | Collecting a concatenation of fetches joins the two collections in order, so the output follows the order of the message ids. |
| Gmail.CollectDropsEmpty | src/gmail_fetcher.py:67-69 | Every collected record is non-empty and carries an id. |
| Gmail.GetUnreadEmails | src/gmail_fetcher.py:45-75 | The result is [] when listing or any fetch fails. Otherwise it is the non-empty parse results in message order. |
| Text.Take | src/email_summarizer.py:100 | `s[:n]` is the prefix of length min(len(s), n). |
| Text.StripSpec | src/email_summarizer.py:111 | `strip()` returns a slice of its input. Everything cut away on either side is whitespace, the result neither starts nor ends with whitespace, and it is empty exactly when the input is all whitespace. |
| Text.StripUnchanged | src/email_summarizer.py:135 | A text with non-whitespace at both ends is unchanged by `strip()`. |
| Text.ToLower | src/gmail_fetcher.py:89 | `lower()` keeps the length and leaves no upper-case ASCII letter. Each upper-case letter becomes the letter 32 code points up, and every other character is kept. |
| Text.ToLowerMatches | src/gmail_fetcher.py:89-96 | A header name lower-cases to an all-lower-case key such as "subject" exactly when it has the key's length and each character is the key's letter or its upper-case form. |
| Text.NatToString | src/email_summarizer.py:96 | The decimal rendering of a count is non-empty and all digits, a single digit exactly below 10, and without a leading zero from 10 on. |
| Text.NatToStringRoundTrip | src/email_summarizer.py:96 | Reading the digits back gives the number, so distinct counts render differently. |
| Text.IntToString | src/email_summarizer.py:126 | The rendering of a priority starts with "-" exactly when it is negative and has no line break. |
| Text.IntToStringValue | src/email_summarizer.py:126 | After the optional "-", the rendering of a priority is all digits and reads back as its absolute value, so "[P/10]" shows the priority itself. |
| Text.JoinSnoc | src/email_summarizer.py:131 | `', '.join` of one item is that item, and one item more appends the separator and that item at the end, so the "Actions:" line lists the items in order. |
| Text.JoinLength | src/email_summarizer.py:131 | `', '.join` of a non-empty list is as long as its items together plus one separator between each two of them. |
| Text.JoinAvoids | src/email_summarizer.py:131 | `', '.join` introduces no character that is in neither the items nor the separator. |

## Left out

- The language model call and its schema validation (`chat` and
  `model_validate_json`, src/email_summarizer.py:40-53) are the `Oracle`
  parameter. It gives the same answer for the same model and prompt, as the
  temperature-0 setting intends. `None` stands for any exception.
- Schema constraints on the model's answer (priority in 1 to 10, at most three
  sentences) are only requests in the prompt. The model accepts any integer
  priority.
- OAuth, the token file, building the service and the `service` field
  (src/gmail_fetcher.py:15-43) are not part of this model. The same goes for
  the `list` and `get` requests, including the `is:unread to:` query and
  `max_results`. `GetUnreadEmails` takes their outcome as input: `None` when
  listing raised, otherwise one fetched message per listed id, `None` where
  that fetch raised. A listing without a `messages` key is the empty list.
- The `osascript` subprocess in `send_imessage` is modelled as an appended log
  entry and the `delivers` answer. The model does not capture that a quote in
  the text or the phone number breaks the AppleScript.
- Base64url decoding (section 5 of RFC 4648) and UTF-8 decoding are the
  opaque `Decoder` parameter.
- Payload shapes other than those the code indexes into are not modelled: a
  header or part that is not a dictionary, or a non-string field. The `body`
  dictionary's missing `data` and missing `body` both appear as `None`.
- Text.ToLower: lower-cases ASCII letters only, because Python's full Unicode
  `lower()` is out of scope. This is still exact for the comparisons the code
  makes with "subject", "from" and "date". The only other characters Python
  lower-cases to ASCII letters are the Kelvin sign (to "k") and U+0130 (to
  "i" plus a combining dot), and neither letter occurs in those three names.
- Console output (`print`) in every component is left out.
- src/main.py is left out: configuration, the input loop and the
  orchestration of the components.
- testing/test_summarizer.py is left out, because it only prints the
  language model's output.
- Summarizer.HighPriority: does not state that the result is a sub-multiset
  of the input. Membership and order follow from HighPriorityMembers and
  HighPriorityAppend.
