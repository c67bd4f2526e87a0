/** `EmailSummarizer`: analysing each email with the language model,
    keeping the high-priority ones, and writing the short alert and the
    full report. */
module Summarizer {
  import opened Wrappers
  import opened Text

  /** The structured output the model is asked for. */
  datatype EmailAnalysis = EmailAnalysis(
    priority: int,
    hasActionItems: bool,
    actionItems: seq<string>,
    summary: string)

  /** One email (the fetcher's dictionary) paired with its analysis. */
  datatype AnalyzedEmail = AnalyzedEmail(original: Record, analysis: EmailAnalysis)

  /** The language model behind `chat`: given the model name and the prompt
      it answers with a schema-valid analysis, or `None` when the call or
      the validation raises. */
  type Oracle = (string, string) -> Option<EmailAnalysis>

  const FallbackSummary := "Could not analyze this email properly."

  /** What `analyze_email` returns when anything goes wrong. */
  const Fallback := EmailAnalysis(5, false, [], FallbackSummary)

  /** The prompt sent to the model for one email. */
  const PromptIntro := "\nAnalyze this email and provide a structured analysis. Be very concise and actionable.\n\nEMAIL:\nSubject: "
  const PromptRubric := "\n\nRate priority 1-10 where:\n- 1-3: Informational, no urgency\n- 4-6: Important but not urgent  \n- 7-8: High priority, needs attention soon\n- 9-10: Critical, immediate action required\n\nFor action items, be specific. If there are deadlines, mention them.\nSummary should be 2-3 sentences maximum.\n"
  function Prompt(content: string, subject: string, sender: string): string
  {
    PromptIntro + subject + "\nFrom: " + sender + "\nContent: " + content + PromptRubric
  }

  /** The prompt holds the subject, the sender and the content verbatim, in
      that order, between the fixed instructions. */
  lemma PromptFields(content: string, subject: string, sender: string)
    ensures var p, i := Prompt(content, subject, sender), |PromptIntro|;
      var j := i + |subject| + |"\nFrom: "|;
      var k := j + |sender| + |"\nContent: "|;
      && |p| == k + |content| + |PromptRubric|
      && p[..i] == PromptIntro
      && p[i..i + |subject|] == subject
      && p[j..j + |sender|] == sender
      && p[k..k + |content|] == content
      && p[k + |content|..] == PromptRubric
  {
    FieldsOfConcat(PromptIntro, subject, "\nFrom: ", sender, "\nContent: ", content, PromptRubric);
  }

  /** `analyze_email`: the model's answer to the prompt for this email when
      it gives one; when the call fails, exactly the fallback (priority 5, no
      action items, the fixed summary), so the call itself never fails. */
  function AnalyzeEmail(oracle: Oracle, model: string, content: string, subject: string, sender: string): (r: EmailAnalysis)
    ensures oracle(model, Prompt(content, subject, sender)).Some? ==> r == oracle(model, Prompt(content, subject, sender)).value
    ensures oracle(model, Prompt(content, subject, sender)).None? ==>
      r == Fallback && r.priority == 5 && !r.hasActionItems && r.actionItems == []
  {
    match oracle(model, Prompt(content, subject, sender))
    case Some(a) => a
    case None => Fallback
  }

  /** `analyze_emails_batch`: one entry per email, in order, each pairing the
      email with the model's analysis of its body, subject and sender (the
      dictionary's values, "" where a key is missing), or with the fallback
      when the model call fails. */
  method AnalyzeBatch(oracle: Oracle, model: string, emails: seq<Record>) returns (results: seq<AnalyzedEmail>)
    ensures |results| == |emails|
    ensures forall i :: 0 <= i < |emails| ==>
      results[i].original == emails[i] &&
      var answer := oracle(model, Prompt(Get(emails[i], "body", ""), Get(emails[i], "subject", ""), Get(emails[i], "sender", "")));
      results[i].analysis == (if answer.Some? then answer.value else Fallback)
  {
    results := [];
    for i := 0 to |emails|
      invariant |results| == i
      invariant forall j :: 0 <= j < i ==>
        results[j] == AnalyzedEmail(emails[j],
          AnalyzeEmail(oracle, model, Get(emails[j], "body", ""), Get(emails[j], "subject", ""), Get(emails[j], "sender", "")))
    {
      var email := emails[i];
      var analysis := AnalyzeEmail(oracle, model, Get(email, "body", ""), Get(email, "subject", ""), Get(email, "sender", ""));
      results := results + [AnalyzedEmail(email, analysis)];
    }
  }

  // ---------------------------------------------------------------------
  // Filtering

  /** `get_high_priority_emails`: the entries whose priority reaches the
      threshold, in their original order. */
  function HighPriority(analyzed: seq<AnalyzedEmail>, threshold: int): (r: seq<AnalyzedEmail>)
    ensures |r| <= |analyzed|
    ensures forall i :: 0 <= i < |r| ==> r[i].analysis.priority >= threshold
  {
    if analyzed == [] then []
    else
      var keep := HighPriority(analyzed[..|analyzed| - 1], threshold);
      var last := analyzed[|analyzed| - 1];
      if last.analysis.priority >= threshold then keep + [last] else keep
  }

  /** Filtering a concatenation filters each part and keeps them in order;
      with the one-element case this determines `HighPriority` completely. */
  lemma {:induction false} HighPriorityAppend(a: seq<AnalyzedEmail>, b: seq<AnalyzedEmail>, threshold: int)
    ensures HighPriority(a + b, threshold) == HighPriority(a, threshold) + HighPriority(b, threshold)
  {
    if b == [] {
      assert a + b == a;
      assert HighPriority(a, threshold) + [] == HighPriority(a, threshold);
    } else {
      var b', last, ab := b[..|b| - 1], b[|b| - 1], a + b;
      assert ab[..|ab| - 1] == a + b' && ab[|ab| - 1] == last;
      HighPriorityAppend(a, b', threshold);
      if last.analysis.priority >= threshold {
        var ka, kb := HighPriority(a, threshold), HighPriority(b', threshold);
        assert (ka + kb) + [last] == ka + (kb + [last]);
      }
    }
  }

  /** An entry is kept exactly when it is in the input with a priority at
      least the threshold. */
  lemma {:induction false} HighPriorityMembers(analyzed: seq<AnalyzedEmail>, threshold: int, e: AnalyzedEmail)
    ensures e in HighPriority(analyzed, threshold) <==> e in analyzed && e.analysis.priority >= threshold
  {
    if analyzed != [] {
      var init := analyzed[..|analyzed| - 1];
      assert analyzed == init + [analyzed[|analyzed| - 1]];
      HighPriorityMembers(init, threshold, e);
    }
  }

  /** Nothing is dropped when every entry reaches the threshold. */
  lemma {:induction false} HighPriorityKeepsAll(analyzed: seq<AnalyzedEmail>, threshold: int)
    requires forall i :: 0 <= i < |analyzed| ==> analyzed[i].analysis.priority >= threshold
    ensures HighPriority(analyzed, threshold) == analyzed
  {
    if analyzed != [] {
      var init, last := analyzed[..|analyzed| - 1], analyzed[|analyzed| - 1];
      HighPriorityKeepsAll(init, threshold);
      assert last.analysis.priority >= threshold;
      assert HighPriority(analyzed, threshold) == init + [last];
      assert init + [last] == analyzed;
    }
  }

  // ---------------------------------------------------------------------
  // The short alert

  const NoHighPriority := "No high priority emails."

  /** "You have N high priority email(s):", with the plural "s" only for N > 1. */
  function AlertHeader(count: nat): string
  {
    "You have " + NatToString(count) + " high priority email" + (if count > 1 then "s" else "") + ":\n"
  }

  /** The subject the alert shows: the first 50 characters, "No Subject" when absent. */
  function AlertSubject(e: AnalyzedEmail): string
  {
    Take(Get(e.original, "subject", "No Subject"), 50)
  }

  /** The detail the alert shows: the first action item, or the summary
      when there are none, cut to 60 characters. */
  function AlertDetail(a: EmailAnalysis): (r: string)
    ensures |r| <= 60
    ensures a.actionItems != [] ==> r <= a.actionItems[0] && |r| == Min(|a.actionItems[0]|, 60)
    ensures a.actionItems == [] ==> r <= a.summary && |r| == Min(|a.summary|, 60)
  {
    if a.actionItems != [] then Take(a.actionItems[0], 60) else Take(a.summary, 60)
  }

  /** Item `number` of the alert. */
  function AlertLine(number: nat, e: AnalyzedEmail): string
  {
    NatToString(number) + ". " + AlertSubject(e) + " - " + AlertDetail(e.analysis) + "\n"
  }

  /** The header followed by the item lines for the first `k` entries,
      numbered from 1: the text before the "...and K more" suffix. */
  function AlertItems(hp: seq<AnalyzedEmail>, k: nat): string
    requires k <= |hp|
  {
    if k == 0 then AlertHeader(|hp|) else AlertItems(hp, k - 1) + AlertLine(k, hp[k - 1])
  }

  /** "...and K more" for the entries beyond the third. */
  function AlertMore(count: nat): string
    requires count > 3
  {
    "...and " + NatToString(count - 3) + " more"
  }

  /** The alert for a non-empty list before `strip()`: the header, the first
      three items, and "...and K more" when there are over three entries. */
  function AlertText(hp: seq<AnalyzedEmail>): string
    requires hp != []
  {
    var items := AlertItems(hp, Min(|hp|, 3));
    if |hp| > 3 then items + AlertMore(|hp|) else items
  }

  /** What `format_priority_summary` returns. */
  function PrioritySummary(hp: seq<AnalyzedEmail>): string
  {
    if hp == [] then NoHighPriority else Strip(AlertText(hp))
  }

  /** `format_priority_summary`, building the text line by line. */
  method FormatPrioritySummary(hp: seq<AnalyzedEmail>) returns (summary: string)
    ensures summary == PrioritySummary(hp)
  {
    if hp == [] {
      return NoHighPriority;
    }
    var count := |hp|;
    summary := AlertHeader(count);
    for i := 0 to Min(count, 3)
      invariant summary == AlertItems(hp, i)
    {
      var email := hp[i];
      var subject := Take(Get(email.original, "subject", "No Subject"), 50);
      if email.analysis.actionItems != [] {
        var action := Take(email.analysis.actionItems[0], 60);
        summary := summary + (NatToString(i + 1) + ". " + subject + " - " + action + "\n");
      } else {
        summary := summary + (NatToString(i + 1) + ". " + subject + " - " + Take(email.analysis.summary, 60) + "\n");
      }
    }
    if count > 3 {
      summary := summary + ("...and " + NatToString(count - 3) + " more");
    }
    summary := Strip(summary);
  }

  /** The text for `k` items begins with the text for fewer. */
  lemma {:induction false} AlertItemsPrefix(hp: seq<AnalyzedEmail>, j: nat, k: nat)
    requires j <= k <= |hp|
    ensures AlertItems(hp, j) <= AlertItems(hp, k)
  {
    if j < k {
      AlertItemsPrefix(hp, j, k - 1);
    }
  }

  /** Item 1 follows the header directly: "1. ", the shown subject of the
      first entry and the " - " separator; the '-' is a non-whitespace
      character after the number. */
  lemma AlertFirstLine(hp: seq<AnalyzedEmail>)
    requires hp != []
    ensures AlertHeader(|hp|) + "1. " + AlertSubject(hp[0]) + " - " <= AlertItems(hp, 1)
    ensures |AlertHeader(|hp|) + "1. "| + |AlertSubject(hp[0])| + 1 < |AlertItems(hp, 1)|
    ensures AlertItems(hp, 1)[|AlertHeader(|hp|) + "1. "| + |AlertSubject(hp[0])| + 1] == '-'
  {
  }

  /** Before stripping, the alert holds item 1 and the '-' after its subject. */
  lemma AlertTextOpens(hp: seq<AnalyzedEmail>)
    requires hp != []
    ensures AlertItems(hp, 1) <= AlertText(hp)
    ensures |AlertHeader(|hp|) + "1. "| + |AlertSubject(hp[0])| + 1 < |AlertText(hp)|
    ensures AlertText(hp)[|AlertHeader(|hp|) + "1. "| + |AlertSubject(hp[0])| + 1] == '-'
  {
    AlertFirstLine(hp);
    AlertItemsPrefix(hp, 1, Min(|hp|, 3));
  }

  /** A non-empty alert opens with its header and item number 1, so it is
      never the "no high priority" text. */
  lemma PrioritySummaryOpens(hp: seq<AnalyzedEmail>)
    requires hp != []
    ensures AlertHeader(|hp|) + "1. " <= PrioritySummary(hp)
    ensures PrioritySummary(hp) != NoHighPriority
  {
    var body, p := AlertText(hp), AlertHeader(|hp|) + "1. ";
    AlertFirstLine(hp);
    AlertTextOpens(hp);
    StripKeepsPrefix(p, body, |p| + |AlertSubject(hp[0])| + 1);
    assert PrioritySummary(hp)[0] == 'Y';
  }

  /** The alert is "No high priority emails." exactly when the list is empty. */
  lemma PrioritySummaryEmptyIff(hp: seq<AnalyzedEmail>)
    ensures PrioritySummary(hp) == NoHighPriority <==> hp == []
  {
    if hp != [] {
      PrioritySummaryOpens(hp);
    }
  }

  /** The alert text starts with the "Y" of "You have". */
  lemma AlertItemsStart(hp: seq<AnalyzedEmail>, k: nat)
    requires k <= |hp|
    ensures AlertItems(hp, k) != [] && AlertItems(hp, k)[0] == 'Y'
  {
    AlertItemsPrefix(hp, 0, k);
  }

  /** With more than three entries the alert is exactly the header, items
      1 to 3, and "...and K more" with K = count - 3: nothing is stripped,
      since the text starts with "You" and ends with "more". */
  lemma PrioritySummaryOverThree(hp: seq<AnalyzedEmail>)
    requires |hp| > 3
    ensures PrioritySummary(hp) == AlertItems(hp, 3) + AlertMore(|hp|)
  {
    AlertTextOverThree(hp);
  }

  /** Before stripping, an alert for over three entries is the three items
      and the "more" line, from the "Y" of "You" to the "e" of "more", so
      `strip()` leaves it alone. */
  lemma AlertTextOverThree(hp: seq<AnalyzedEmail>)
    requires |hp| > 3
    ensures AlertText(hp) == AlertItems(hp, 3) + AlertMore(|hp|)
    ensures Strip(AlertText(hp)) == AlertText(hp)
  {
    var items, more := AlertItems(hp, 3), AlertMore(|hp|);
    AlertItemsStart(hp, 3);
    AlertMoreEnds(|hp|);
    StripJoined(items, more);
  }

  /** Before stripping, the alert ends with the "e" of "...and K more"
      exactly when there are over three entries, and otherwise with the
      line break of the last item. */
  lemma AlertTextLastChar(hp: seq<AnalyzedEmail>)
    requires hp != []
    ensures AlertText(hp) != []
    ensures AlertText(hp)[|AlertText(hp)| - 1] == if |hp| > 3 then 'e' else '\n'
  {
  }

  /** "...and K more" ends with the "e" of "more". */
  lemma AlertMoreEnds(count: nat)
    requires count > 3
    ensures AlertMore(count) != [] && AlertMore(count)[|AlertMore(count)| - 1] == 'e'
  {
  }

  /** The header names the count, and "email" takes the plural "s" exactly
      when the count is over one (otherwise the colon follows it). */
  lemma AlertHeaderPlural(count: nat)
    ensures var lead := "You have " + NatToString(count) + " high priority email";
      && lead <= AlertHeader(count)
      && |lead| < |AlertHeader(count)|
      && (AlertHeader(count)[|lead|] == 's' <==> count > 1)
  {
  }

  /** The alert header is one line. */
  lemma AlertHeaderLines(count: nat)
    ensures Count(AlertHeader(count), '\n') == 1
  {
    var h := "You have " + NatToString(count) + " high priority email" + (if count > 1 then "s" else "") + ":";
    DigitsAvoidNewline(count);
    assert '\n' !in h;
    CountLine(h);
    assert AlertHeader(count) == h + "\n";
  }

  /** An item is one line when its subject and detail hold no line break. */
  lemma AlertLineLines(number: nat, e: AnalyzedEmail)
    requires '\n' !in AlertSubject(e) && '\n' !in AlertDetail(e.analysis)
    ensures Count(AlertLine(number, e), '\n') == 1
  {
    var l := NatToString(number) + ". " + AlertSubject(e) + " - " + AlertDetail(e.analysis);
    DigitsAvoidNewline(number);
    assert '\n' !in l;
    CountLine(l);
  }

  /** When no shown subject or detail holds a line break, the text for `k`
      items has one line for the header and one per item. */
  lemma {:induction false} AlertItemsLines(hp: seq<AnalyzedEmail>, k: nat)
    requires k <= |hp|
    requires forall j :: 0 <= j < k ==> '\n' !in AlertSubject(hp[j]) && '\n' !in AlertDetail(hp[j].analysis)
    ensures Count(AlertItems(hp, k), '\n') == k + 1
  {
    if k == 0 {
      AlertHeaderLines(|hp|);
    } else {
      AlertItemsLines(hp, k - 1);
      AlertLineLines(k, hp[k - 1]);
      CountAppend(AlertItems(hp, k - 1), AlertLine(k, hp[k - 1]), '\n');
    }
  }

  lemma DigitsAvoidNewline(n: nat)
    ensures '\n' !in NatToString(n)
  {
  }

  /** The text for `k` items depends only on the count and the first `k` entries. */
  lemma {:induction false} AlertItemsOnlyShown(hp: seq<AnalyzedEmail>, hp': seq<AnalyzedEmail>, k: nat)
    requires |hp| == |hp'| && k <= |hp| && hp[..k] == hp'[..k]
    ensures AlertItems(hp, k) == AlertItems(hp', k)
  {
    if k > 0 {
      assert hp[k - 1] == hp[..k][k - 1] == hp'[k - 1];
      assert hp[..k - 1] == hp[..k][..k - 1];
      assert hp'[..k - 1] == hp'[..k][..k - 1];
      AlertItemsOnlyShown(hp, hp', k - 1);
    }
  }

  /** Entries after the third affect the alert only through the count. */
  lemma PrioritySummaryOnlyFirstThree(hp: seq<AnalyzedEmail>, hp': seq<AnalyzedEmail>)
    requires |hp| == |hp'| && hp[..Min(|hp|, 3)] == hp'[..Min(|hp|, 3)]
    ensures PrioritySummary(hp) == PrioritySummary(hp')
  {
    AlertItemsOnlyShown(hp, hp', Min(|hp|, 3));
  }

  // ---------------------------------------------------------------------
  // The full report

  const NoUnread := "No unread emails."

  /** The three priority markers, character for character as the source
      file spells them: the UTF-8 bytes of the red, yellow and green circle
      emoji read back as Windows-1252 text (four characters each). */
  const HighMarker := "\U{F0}\U{178}\U{201D}\U{B4}"
  const MediumMarker := "\U{F0}\U{178}\U{178}\U{A1}"
  const LowMarker := "\U{F0}\U{178}\U{178}\U{A2}"

  /** The marker for a priority: high from 8, medium from 6, low below. */
  function Marker(priority: int): (m: string)
    ensures m == HighMarker <==> priority >= 8
    ensures m == MediumMarker <==> 6 <= priority < 8
    ensures m == LowMarker <==> priority < 6
  {
    if priority >= 8 then HighMarker else if priority >= 6 then MediumMarker else LowMarker
  }

  function ReportHeader(count: nat): string
  {
    "Summary of " + NatToString(count) + " unread emails:\n\n"
  }

  /** The first line of block `number`: marker, "[P/10]" and subject. */
  function ReportTitle(number: nat, e: AnalyzedEmail): string
  {
    NatToString(number) + ". " + Marker(e.analysis.priority) + " [" + IntToString(e.analysis.priority) + "/10] "
      + Get(e.original, "subject", "No Subject")
  }

  /** The title, "From:" and summary lines of block `number`. */
  function ReportEntry(number: nat, e: AnalyzedEmail): string
  {
    ReportTitle(number, e) + "\n"
      + ("   From: " + Get(e.original, "sender", "Unknown") + "\n")
      + ("   " + e.analysis.summary + "\n")
  }

  /** Block `number` of the report: the entry lines, an "Actions:" line only
      when there are action items, and a blank line. */
  function ReportBlock(number: nat, e: AnalyzedEmail): string
  {
    var a := e.analysis;
    var block := ReportEntry(number, e);
    (if a.actionItems != [] then block + ("   Actions: " + Join(a.actionItems, ", ") + "\n") else block) + "\n"
  }

  /** The header followed by the blocks for the first `k` entries, numbered from 1. */
  function ReportText(es: seq<AnalyzedEmail>, k: nat): string
    requires k <= |es|
  {
    if k == 0 then ReportHeader(|es|) else ReportText(es, k - 1) + ReportBlock(k, es[k - 1])
  }

  /** What `format_all_emails_summary` returns. */
  function AllEmailsSummary(es: seq<AnalyzedEmail>): string
  {
    if es == [] then NoUnread else Strip(ReportText(es, |es|))
  }

  /** `format_all_emails_summary`, building the text block by block. */
  method FormatAllEmailsSummary(es: seq<AnalyzedEmail>) returns (summary: string)
    ensures summary == AllEmailsSummary(es)
  {
    if es == [] {
      return NoUnread;
    }
    summary := ReportHeader(|es|);
    for i := 0 to |es|
      invariant summary == ReportText(es, i)
    {
      var analysis := es[i].analysis;
      var original := es[i].original;
      var marker := if analysis.priority >= 8 then HighMarker else if analysis.priority >= 6 then MediumMarker else LowMarker;
      var block := NatToString(i + 1) + ". " + marker + " [" + IntToString(analysis.priority) + "/10] "
        + Get(original, "subject", "No Subject") + "\n";
      block := block + ("   From: " + Get(original, "sender", "Unknown") + "\n");
      block := block + ("   " + analysis.summary + "\n");
      if analysis.actionItems != [] {
        block := block + ("   Actions: " + Join(analysis.actionItems, ", ") + "\n");
      }
      summary := summary + (block + "\n");
    }
    summary := Strip(summary);
  }

  lemma {:induction false} ReportTextPrefix(es: seq<AnalyzedEmail>, j: nat, k: nat)
    requires j <= k <= |es|
    ensures ReportText(es, j) <= ReportText(es, k)
  {
    if j < k {
      ReportTextPrefix(es, j, k - 1);
    }
  }

  /** A block opens with its number, the marker and the bracket before the priority. */
  lemma BlockOpens(number: nat, e: AnalyzedEmail)
    ensures NatToString(number) + ". " + Marker(e.analysis.priority) + " [" <= ReportBlock(number, e)
  {
    var opening := NatToString(number) + ". " + Marker(e.analysis.priority) + " [";
    var title, entry := ReportTitle(number, e), ReportEntry(number, e);
    assert title == opening + (IntToString(e.analysis.priority) + "/10] " + Get(e.original, "subject", "No Subject"));
    assert opening <= title <= entry;
    assert entry <= ReportBlock(number, e);
  }

  /** Block 1 follows the header, and a non-whitespace character ends its marker. */
  lemma ReportFirstBlock(es: seq<AnalyzedEmail>)
    requires es != []
    ensures ReportHeader(|es|) + "1. " + Marker(es[0].analysis.priority) <= ReportText(es, 1)
    ensures |ReportHeader(|es|) + "1. " + Marker(es[0].analysis.priority)| + 1 < |ReportText(es, 1)|
    ensures ReportText(es, 1)[|ReportHeader(|es|) + "1. " + Marker(es[0].analysis.priority)| + 1] == '['
  {
    var header, marker := ReportHeader(|es|), Marker(es[0].analysis.priority);
    var opening := "1. " + marker + " [";
    assert NatToString(1) == "1";
    BlockOpens(1, es[0]);
    assert ReportText(es, 1) == header + ReportBlock(1, es[0]);
    assert header + opening <= ReportText(es, 1);
    assert header + opening == header + "1. " + marker + " [";
  }

  /** A non-empty report opens with its header and block 1's number and
      marker, so it is never the "no unread emails" text. */
  lemma AllEmailsSummaryOpens(es: seq<AnalyzedEmail>)
    requires es != []
    ensures ReportHeader(|es|) + "1. " + Marker(es[0].analysis.priority) <= AllEmailsSummary(es)
    ensures AllEmailsSummary(es) != NoUnread
  {
    var p := ReportHeader(|es|) + "1. " + Marker(es[0].analysis.priority);
    ReportFirstBlock(es);
    ReportTextPrefix(es, 1, |es|);
    assert p <= ReportText(es, |es|);
    StripKeepsPrefix(p, ReportText(es, |es|), |p| + 1);
    assert AllEmailsSummary(es)[0] == 'S';
  }

  /** The report is "No unread emails." exactly when the list is empty. */
  lemma AllEmailsSummaryEmptyIff(es: seq<AnalyzedEmail>)
    ensures AllEmailsSummary(es) == NoUnread <==> es == []
  {
    if es != [] {
      AllEmailsSummaryOpens(es);
    }
  }

  /** The title line breaks only where its subject does. */
  lemma ReportTitleLines(number: nat, e: AnalyzedEmail)
    ensures Count(ReportTitle(number, e), '\n') == Count(Get(e.original, "subject", "No Subject"), '\n')
  {
    var m := Marker(e.analysis.priority);
    var lead := NatToString(number) + ". " + m + " [" + IntToString(e.analysis.priority) + "/10] ";
    DigitsAvoidNewline(number);
    assert forall i :: 0 <= i < |m| ==> m[i] != '\n';
    assert '\n' !in lead;
    CountAppend(lead, Get(e.original, "subject", "No Subject"), '\n');
  }

  /** The entry is three lines, plus one for each line break inside the
      subject, the sender or the summary. */
  lemma ReportEntryLines(number: nat, e: AnalyzedEmail)
    ensures Count(ReportEntry(number, e), '\n') ==
      3 + Count(Get(e.original, "subject", "No Subject"), '\n')
        + Count(Get(e.original, "sender", "Unknown"), '\n') + Count(e.analysis.summary, '\n')
  {
    ReportTitleLines(number, e);
    EntryShapeLines(ReportTitle(number, e), Get(e.original, "sender", "Unknown"), e.analysis.summary);
  }

  /** The entry's shape on any title, sender and summary: three line breaks
      plus those inside the three texts. */
  lemma EntryShapeLines(title: string, sender: string, summary: string)
    ensures Count(title + "\n" + ("   From: " + sender + "\n") + ("   " + summary + "\n"), '\n') ==
      3 + Count(title, '\n') + Count(sender, '\n') + Count(summary, '\n')
  {
    CountThreeLines(title, "   From: " + sender, "   " + summary);
    CountAfterPrefix("   From: ", sender, '\n');
    CountAfterPrefix("   ", summary, '\n');
  }

  /** A block's tail on any entry and joined action items: with action
      items, the "Actions:" line and the blank line; otherwise the blank
      line alone. */
  lemma BlockShapeLines(entry: string, joined: string)
    ensures Count(entry + ("   Actions: " + joined + "\n") + "\n", '\n') == Count(entry, '\n') + Count(joined, '\n') + 2
    ensures Count(entry + "\n", '\n') == Count(entry, '\n') + 1
  {
    CountTwoLines(entry, "   Actions: " + joined);
    CountAfterPrefix("   Actions: ", joined, '\n');
    CountLineBreak(entry);
  }

  /** A block is its entry, one "Actions:" line exactly when there are
      action items, and a blank line: four line breaks, five with action
      items, plus those inside the subject, sender, summary and joined
      action items. */
  lemma ReportBlockLines(number: nat, e: AnalyzedEmail)
    ensures Count(ReportBlock(number, e), '\n') ==
      4 + Count(Get(e.original, "subject", "No Subject"), '\n')
        + Count(Get(e.original, "sender", "Unknown"), '\n') + Count(e.analysis.summary, '\n')
        + (if e.analysis.actionItems != [] then 1 + Count(Join(e.analysis.actionItems, ", "), '\n') else 0)
  {
    ReportEntryLines(number, e);
    BlockShapeLines(ReportEntry(number, e), Join(e.analysis.actionItems, ", "));
  }

  /** When subject, sender, summary and action items hold no line break, a
      block has exactly 4 line breaks, or 5 when there are action items. */
  lemma ReportBlockLinesPlain(number: nat, e: AnalyzedEmail)
    requires '\n' !in Get(e.original, "subject", "No Subject")
    requires '\n' !in Get(e.original, "sender", "Unknown")
    requires '\n' !in e.analysis.summary
    requires forall i :: 0 <= i < |e.analysis.actionItems| ==> '\n' !in e.analysis.actionItems[i]
    ensures Count(ReportBlock(number, e), '\n') == if e.analysis.actionItems != [] then 5 else 4
  {
    ReportBlockLines(number, e);
    JoinAvoids(e.analysis.actionItems, ", ", '\n');
  }

  /** The text for `k` blocks depends only on the count and the first `k`
      entries: block `i` is entry `i`'s, in input order. */
  lemma {:induction false} ReportTextOnlyShown(es: seq<AnalyzedEmail>, es': seq<AnalyzedEmail>, k: nat)
    requires |es| == |es'| && k <= |es| && es[..k] == es'[..k]
    ensures ReportText(es, k) == ReportText(es', k)
  {
    if k > 0 {
      assert es[k - 1] == es[..k][k - 1] == es'[k - 1];
      assert es[..k - 1] == es[..k][..k - 1];
      assert es'[..k - 1] == es'[..k][..k - 1];
      ReportTextOnlyShown(es, es', k - 1);
    }
  }
}
