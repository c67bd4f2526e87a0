/** `NotificationSender`: sending a text through the messaging application,
    and splitting a long report into numbered chunks. */
module Notifier {
  import opened Text

  /** The largest slice of a long report put into one message. */
  const ChunkSize := 1000

  const Envelope := "\U{1F4E7} Email "

  /** The banner before a short alert. */
  const AlertBanner := Envelope + "Alert:\n"

  /** The banner before a report that fits in one message. */
  const SummaryBanner := Envelope + "Summary:\n"

  /** The banner before chunk `number` of `total`: "... Summary (i/N):". */
  function ChunkBanner(number: nat, total: nat): string
  {
    Envelope + "Summary (" + NatToString(number) + "/" + NatToString(total) + "):\n"
  }

  /** ceil(n / 1000): how many slices `range(0, n, 1000)` starts. */
  function ChunkCount(n: nat): nat
  {
    (n + ChunkSize - 1) / ChunkSize
  }

  lemma ChunkStartInRange(n: nat, i: nat)
    requires i < ChunkCount(n)
    ensures i * ChunkSize < n
  {
  }

  /** `[s[i:i+1000] for i in range(0, len(s), 1000)]`: ceil(len / 1000)
      slices, none of them empty and none over 1000 characters. */
  function Chunks(s: string): (r: seq<string>)
    ensures |r| == ChunkCount(|s|)
    ensures forall i :: 0 <= i < |r| ==> 1 <= |r[i]| <= ChunkSize
  {
    seq(ChunkCount(|s|), i requires 0 <= i < ChunkCount(|s|) =>
      ChunkStartInRange(|s|, i);
      s[i * ChunkSize .. Min((i + 1) * ChunkSize, |s|)])
  }

  /** The messages the chunked path sends, each chunk after its "(i/N)" banner. */
  function ChunkMessages(s: string): seq<string>
  {
    var chunks := Chunks(s);
    seq(|chunks|, i requires 0 <= i < |chunks| => ChunkBanner(i + 1, |chunks|) + chunks[i])
  }

  /** Message `i` of the chunked path is the banner numbered i+1 of N, with
      N the chunk count, followed by the characters 1000*i up to
      1000*(i+1) of the report (or up to its end). */
  lemma ChunkMessageAt(s: string, i: nat)
    requires i < ChunkCount(|s|)
    ensures |ChunkMessages(s)| == ChunkCount(|s|)
    ensures i * ChunkSize < Min((i + 1) * ChunkSize, |s|)
    ensures ChunkMessages(s)[i] ==
      ChunkBanner(i + 1, ChunkCount(|s|)) + s[i * ChunkSize .. Min((i + 1) * ChunkSize, |s|)]
  {
  }

  /** Where the message number sits in a chunk banner, and how long the
      banner is. */
  lemma ChunkBannerNumber(number: nat, total: nat)
    ensures var p, d := |Envelope + "Summary ("|, NatToString(number);
      && |ChunkBanner(number, total)| == p + |d| + 1 + |NatToString(total)| + 3
      && ChunkBanner(number, total)[p..p + |d|] == d
  {
  }

  /** Two different message numbers give two different banners, so every
      message of one report carries its own label. */
  lemma ChunkBannerInjective(a: nat, b: nat, total: nat)
    requires a != b
    ensures ChunkBanner(a, total) != ChunkBanner(b, total)
  {
    if ChunkBanner(a, total) == ChunkBanner(b, total) {
      ChunkBannerNumber(a, total);
      ChunkBannerNumber(b, total);
      assert NatToString(a) == NatToString(b);
      NatToStringRoundTrip(a);
      NatToStringRoundTrip(b);
    }
  }

  /** Messages `i` and `j` of the chunked path open with their own banners,
      and those banners differ when `i` and `j` do. */
  lemma ChunkMessagesLabelled(s: string, i: nat, j: nat)
    requires i < ChunkCount(|s|) && j < ChunkCount(|s|) && i != j
    ensures ChunkBanner(i + 1, ChunkCount(|s|)) <= ChunkMessages(s)[i]
    ensures ChunkBanner(j + 1, ChunkCount(|s|)) <= ChunkMessages(s)[j]
    ensures ChunkBanner(i + 1, ChunkCount(|s|)) != ChunkBanner(j + 1, ChunkCount(|s|))
  {
    ChunkBannerInjective(i + 1, j + 1, ChunkCount(|s|));
  }

  /** There are ceil(len / 1000) chunks, at least two for a text over 1000
      characters; all but the last hold exactly 1000 characters and the
      last holds between 1 and 1000. */
  lemma ChunkSizes(s: string)
    requires s != []
    ensures |Chunks(s)| == ChunkCount(|s|) >= 1
    ensures |s| > ChunkSize ==> |Chunks(s)| >= 2
    ensures forall i :: 0 <= i < |Chunks(s)| - 1 ==> |Chunks(s)[i]| == ChunkSize
    ensures 1 <= |Chunks(s)[|Chunks(s)| - 1]| <= ChunkSize
  {
  }

  /** Past the first 1000 characters, the chunks are those of the rest. */
  lemma ChunksTail(s: string)
    requires |s| > ChunkSize
    ensures Chunks(s) == [s[..ChunkSize]] + Chunks(s[ChunkSize..])
  {
    var rest := s[ChunkSize..];
    var a, b := Chunks(s), Chunks(rest);
    assert ChunkCount(|s|) == ChunkCount(|rest|) + 1;
    forall i | 0 <= i < |b|
      ensures a[i + 1] == b[i]
    {
      ChunkStartInRange(|rest|, i);
      var lo, hi := i * ChunkSize, Min((i + 1) * ChunkSize, |rest|);
      assert (i + 1) * ChunkSize == lo + ChunkSize;
      assert Min((i + 2) * ChunkSize, |s|) == hi + ChunkSize;
      assert b[i] == rest[lo..hi];
      assert rest[lo..hi] == s[lo + ChunkSize..hi + ChunkSize];
      assert a[i + 1] == s[(i + 1) * ChunkSize..Min((i + 2) * ChunkSize, |s|)];
    }
    assert a == [a[0]] + a[1..];
  }

  /** Joining the chunks in order gives back the text exactly. */
  lemma {:induction false} ChunksConcat(s: string)
    ensures Concat(Chunks(s)) == s
    decreases |s|
  {
    if |s| == 0 {
      assert Chunks(s) == [];
    } else if |s| <= ChunkSize {
      assert ChunkCount(|s|) == 1;
      assert Chunks(s)[0] == s[0..|s|] == s;
      assert Chunks(s) == [s];
      assert Concat([s]) == s + Concat([]);
    } else {
      ChunksTail(s);
      ChunksConcat(s[ChunkSize..]);
      assert Chunks(s)[1..] == Chunks(s[ChunkSize..]);
      assert s == s[..ChunkSize] + s[ChunkSize..];
    }
  }

  /** What the chunked path sends carries the whole report and nothing
      else: dropping each message's banner and joining the rest in order
      gives back the report. */
  lemma ChunkMessagesCarryReport(s: string)
    ensures var msgs := ChunkMessages(s);
      Concat(seq(|msgs|, i requires 0 <= i < |msgs| => msgs[i][|ChunkBanner(i + 1, |msgs|)|..])) == s
  {
    var msgs, chunks := ChunkMessages(s), Chunks(s);
    var bodies := seq(|msgs|, i requires 0 <= i < |msgs| => msgs[i][|ChunkBanner(i + 1, |msgs|)|..]);
    forall i | 0 <= i < |msgs|
      ensures bodies[i] == chunks[i]
    {
      assert msgs[i] == ChunkBanner(i + 1, |chunks|) + chunks[i];
    }
    assert bodies == chunks;
    ChunksConcat(s);
  }

  /** The environment's answer to one send: whether the messaging
      application reports success for `text`, given the messages sent
      before it. */
  type Outcome = (seq<string>, string) -> bool

  datatype Delivery = Delivery(log: seq<string>, ok: bool)

  /** Sending `msgs` in order, stopping at the first failure: the log of
      everything handed to the messaging application and the overall result. */
  function Deliver(delivers: Outcome, log: seq<string>, msgs: seq<string>): Delivery
    decreases |msgs|
  {
    if msgs == [] then Delivery(log, true)
    else if delivers(log, msgs[0]) then Deliver(delivers, log + [msgs[0]], msgs[1..])
    else Delivery(log + [msgs[0]], false)
  }

  /** Whether the first `k` of `msgs` all succeed when sent in order after `log`. */
  ghost predicate AllSucceed(delivers: Outcome, log: seq<string>, msgs: seq<string>, k: nat)
    requires k <= |msgs|
  {
    forall j :: 0 <= j < k ==> delivers(log + msgs[..j], msgs[j])
  }

  /** Once the first `k` messages have been accepted, delivery goes on
      from message `k` with those `k` in the log. */
  lemma {:induction false} DeliverSkip(delivers: Outcome, log: seq<string>, msgs: seq<string>, k: nat)
    requires k <= |msgs| && AllSucceed(delivers, log, msgs, k)
    ensures Deliver(delivers, log, msgs) == Deliver(delivers, log + msgs[..k], msgs[k..])
  {
    if k == 0 {
      assert log + msgs[..0] == log && msgs[0..] == msgs;
    } else {
      DeliverSkip(delivers, log, msgs, k - 1);
      var rest := msgs[k - 1..];
      assert rest[0] == msgs[k - 1] && rest[1..] == msgs[k..];
      assert delivers(log + msgs[..k - 1], msgs[k - 1]);
      assert log + msgs[..k - 1] + [msgs[k - 1]] == log + msgs[..k];
    }
  }

  /** When every message is accepted, all of them are sent, in order, and
      the result is true. */
  lemma DeliverAllAccepted(delivers: Outcome, log: seq<string>, msgs: seq<string>)
    requires AllSucceed(delivers, log, msgs, |msgs|)
    ensures Deliver(delivers, log, msgs) == Delivery(log + msgs, true)
  {
    DeliverSkip(delivers, log, msgs, |msgs|);
    assert msgs[..|msgs|] == msgs && msgs[|msgs|..] == [];
  }

  /** When message `k` is the first one refused, messages 0 to `k` are sent,
      in order, nothing after `k` is, and the result is false. */
  lemma DeliverFirstRefusal(delivers: Outcome, log: seq<string>, msgs: seq<string>, k: nat)
    requires k < |msgs| && AllSucceed(delivers, log, msgs, k)
    requires !delivers(log + msgs[..k], msgs[k])
    ensures Deliver(delivers, log, msgs) == Delivery(log + msgs[..k + 1], false)
  {
    DeliverSkip(delivers, log, msgs, k);
    assert msgs[k..][0] == msgs[k];
    assert log + msgs[..k] + [msgs[k]] == log + msgs[..k + 1];
  }

  /** If not all of the first `k` messages are accepted, one of them is the
      first refusal. */
  lemma {:induction false} FirstRefusalExists(delivers: Outcome, log: seq<string>, msgs: seq<string>, k: nat)
    requires k <= |msgs| && !AllSucceed(delivers, log, msgs, k)
    ensures exists j :: 0 <= j < k && AllSucceed(delivers, log, msgs, j) && !delivers(log + msgs[..j], msgs[j])
  {
    if AllSucceed(delivers, log, msgs, k - 1) {
      assert !delivers(log + msgs[..k - 1], msgs[k - 1]);
    } else {
      FirstRefusalExists(delivers, log, msgs, k - 1);
    }
  }

  /** The result of a delivery is true exactly when every message is accepted. */
  lemma DeliverOkIffAllAccepted(delivers: Outcome, log: seq<string>, msgs: seq<string>)
    ensures Deliver(delivers, log, msgs).ok <==> AllSucceed(delivers, log, msgs, |msgs|)
  {
    if AllSucceed(delivers, log, msgs, |msgs|) {
      DeliverAllAccepted(delivers, log, msgs);
    } else {
      FirstRefusalExists(delivers, log, msgs, |msgs|);
      var j :| 0 <= j < |msgs| && AllSucceed(delivers, log, msgs, j) && !delivers(log + msgs[..j], msgs[j]);
      DeliverFirstRefusal(delivers, log, msgs, j);
    }
  }

  /** `NotificationSender`: a phone number, the messaging application's
      behaviour, and the log of every message handed to it. */
  class NotificationSender {
    const phoneNumber: string
    const delivers: Outcome
    var log: seq<string>

    constructor (phoneNumber: string, delivers: Outcome)
      ensures this.phoneNumber == phoneNumber && this.delivers == delivers
      ensures log == []
    {
      this.phoneNumber := phoneNumber;
      this.delivers := delivers;
      log := [];
    }

    /** `send_imessage`: hand `text` to the messaging application; the
        result is its report. */
    method SendIMessage(text: string) returns (ok: bool)
      modifies this
      ensures log == old(log) + [text]
      ensures ok == delivers(old(log), text)
    {
      ok := delivers(log, text);
      log := log + [text];
    }

    /** `send_priority_alert`: one message, the alert banner and the summary. */
    method SendPriorityAlert(prioritySummary: string) returns (ok: bool)
      modifies this
      ensures log == old(log) + [AlertBanner + prioritySummary]
      ensures ok == delivers(old(log), AlertBanner + prioritySummary)
    {
      ok := SendIMessage(AlertBanner + prioritySummary);
    }

    /** `send_full_summary`: one message when the text fits in 1000
        characters; otherwise the numbered chunks in order, stopping at the
        first one that fails. */
    method SendFullSummary(fullSummary: string) returns (ok: bool)
      modifies this
      ensures |fullSummary| <= ChunkSize ==>
        log == old(log) + [SummaryBanner + fullSummary] && ok == delivers(old(log), SummaryBanner + fullSummary)
      ensures |fullSummary| > ChunkSize ==>
        Delivery(log, ok) == Deliver(delivers, old(log), ChunkMessages(fullSummary))
    {
      if |fullSummary| > ChunkSize {
        var chunks := Chunks(fullSummary);
        ghost var msgs := ChunkMessages(fullSummary);
        ghost var start := log;
        for i := 0 to |chunks|
          invariant log == start + msgs[..i]
          invariant AllSucceed(delivers, start, msgs, i)
        {
          var message := ChunkBanner(i + 1, |chunks|) + chunks[i];
          assert message == msgs[i];
          var sent := SendIMessage(message);
          assert msgs[..i + 1] == msgs[..i] + [msgs[i]];
          if !sent {
            DeliverFirstRefusal(delivers, start, msgs, i);
            return false;
          }
        }
        DeliverAllAccepted(delivers, start, msgs);
        assert msgs[..|chunks|] == msgs;
        return true;
      } else {
        ok := SendIMessage(SummaryBanner + fullSummary);
      }
    }
  }
}
