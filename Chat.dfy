/** The broadcast chat server: a registry of connected writers, a history
    log capped at 100 entries, an identity-to-name table, and the session
    state machine that each connection runs (join, read and classify frames,
    append and broadcast chat lines, deregister on exit).

    Every section the server runs under its lock is one atomic method here.
    What a writer has been sent is kept per writer in `sent`, so that the
    contracts can say who received what.  The clock, the SHA-1 identity and
    the failures of the transport are inputs of the model. */
module Chat {
  import opened PyText
  import opened Wrappers
  import opened Seqs

  // ------------------------------------------------------------ values

  /** A connection's stream writer, compared by identity as Python compares
      the writer objects held in the registry list. */
  datatype Writer = Writer(handle: nat)

  predicate IsHexDigit(c: char) {
    '0' <= c <= '9' || 'a' <= c <= 'f'
  }

  /** The client identity: the first 8 characters of the lower-case hex
      SHA-1 digest of "<ip> : <port>".  The digest itself is an input. */
  type Identity = s: string | |s| == 8 && forall k :: 0 <= k < |s| ==> IsHexDigit(s[k])
    witness "00000000"

  /** The wall-clock time of day that `strftime('%H:%M:%S')` formats. */
  datatype Time = Time(hour: int, minute: int, second: int)

  type Clock = t: Time | 0 <= t.hour < 24 && 0 <= t.minute < 60 && 0 <= t.second < 60
    witness Time(0, 0, 0)

  /** One history entry: (client_hash, message, timestamp). */
  datatype Entry = Entry(sender: Identity, text: string, at: Clock)

  /** The history log keeps at most this many entries. */
  const HistoryCap: nat := 100

  // -------------------------------------------------------- formatting

  /** A number below 100 as two zero-padded decimal digits (`%H`, `%M`, `%S`). */
  function Pad2(n: nat): (r: string)
    requires n < 100
  {
    [DigitChar(n / 10), DigitChar(n % 10)]
  }

  function DigitValue(c: char): int {
    c as int - '0' as int
  }

  /** `strftime('%H:%M:%S')`. */
  function FormatTime(t: Clock): (r: string)
  {
    Pad2(t.hour) + ":" + Pad2(t.minute) + ":" + Pad2(t.second)
  }

  /** Reads back the time from the fixed positions of an "HH:MM:SS" text. */
  function ParseTime(s: string): Time
    requires |s| == 8
  {
    Time(DigitValue(s[0]) * 10 + DigitValue(s[1]),
         DigitValue(s[3]) * 10 + DigitValue(s[4]),
         DigitValue(s[6]) * 10 + DigitValue(s[7]))
  }

  /** The time text is always eight characters and reads back as the time. */
  lemma FormatTimeRoundTrip(t: Clock)
    ensures |FormatTime(t)| == 8 && FormatTime(t)[2] == ':' && FormatTime(t)[5] == ':'
    ensures ParseTime(FormatTime(t)) == t
  {
    var f := FormatTime(t);
    assert f[0] == DigitChar(t.hour / 10) && f[1] == DigitChar(t.hour % 10);
    assert f[3] == DigitChar(t.minute / 10) && f[4] == DigitChar(t.minute % 10);
    assert f[6] == DigitChar(t.second / 10) && f[7] == DigitChar(t.second % 10);
  }

  /** `client_names.get(hash, hash)`: the display name when one is recorded,
      otherwise the identity itself. */
  function DisplayName(names: map<string, string>, id: Identity): (r: string)
    ensures id in names ==> r == names[id]
    ensures id !in names ==> r == id
  {
    if id in names then names[id] else id
  }

  /** One chat line as it is replayed and broadcast: "[HH:MM:SS] name: text\n". */
  function FormatLine(at: Clock, name: string, text: string): string
  {
    "[" + FormatTime(at) + "] " + name + ": " + text + "\n"
  }

  /** The fields of a chat line can be recovered from their fixed positions:
      the time from characters 1..8, the name after "] ", the text between the
      ": " that follows the name and the final newline. */
  lemma FormatLineFields(at: Clock, name: string, text: string)
    ensures var line := FormatLine(at, name, text);
            |line| == 14 + |name| + |text|
            && line[0] == '[' && line[9] == ']' && line[|line| - 1] == '\n'
            && ParseTime(line[1..9]) == at
            && line[11..11 + |name|] == name
            && line[13 + |name|..|line| - 1] == text
  {
    var line := FormatLine(at, name, text);
    FormatTimeRoundTrip(at);
    var pre := "[" + FormatTime(at) + "] ";
    assert |pre| == 11;
    assert line == pre + name + ": " + text + "\n";
    assert line[1..9] == FormatTime(at);
    assert line[11..11 + |name|] == name;
    assert line[13 + |name|..|line| - 1] == text;
  }

  function EntryLine(e: Entry, names: map<string, string>): string {
    FormatLine(e.at, DisplayName(names, e.sender), e.text)
  }

  /** The replayed history lines, one per entry, in log order. */
  function RenderLines(h: seq<Entry>, names: map<string, string>): (r: seq<string>)
    ensures |r| == |h|
    ensures forall k :: 0 <= k < |h| ==> r[k] == EntryLine(h[k], names)
  {
    if h == [] then [] else RenderLines(h[..|h| - 1], names) + [EntryLine(h[|h| - 1], names)]
  }

  function Welcome(id: Identity): string {
    "Welcome to the chat! Your ID: " + id
      + "\nEnter close() or quit() or exit() to close the connection!"
  }

  const HistoryHeader: string := "\n---Start of Message History ---\n"
  const HistoryFooter: string := "--- End of History ---\n\n"

  /** What a joining client is sent after the welcome: nothing when the log is
      empty, otherwise the header, one line per entry and the footer. */
  function Replay(h: seq<Entry>, names: map<string, string>): seq<string> {
    if h == [] then [] else [HistoryHeader] + RenderLines(h, names) + [HistoryFooter]
  }

  /** The replay block is framed by the markers and carries each entry of the
      log, in order, at position k + 1. */
  lemma ReplayShape(h: seq<Entry>, names: map<string, string>)
    ensures Replay(h, names) == [] <==> h == []
    ensures h != [] ==> |Replay(h, names)| == |h| + 2
                        && Replay(h, names)[0] == HistoryHeader
                        && Replay(h, names)[|h| + 1] == HistoryFooter
                        && forall k :: 0 <= k < |h| ==> Replay(h, names)[k + 1] == EntryLine(h[k], names)
  {
    if h != [] {
      var r := Replay(h, names);
      var lines := RenderLines(h, names);
      assert r == [HistoryHeader] + lines + [HistoryFooter];
      forall k | 0 <= k < |h| ensures r[k + 1] == EntryLine(h[k], names) {
        assert r[k + 1] == lines[k];
      }
    }
  }

  // ------------------------------------------------- the bounded history

  /** The history the server holds after the entries of `log` have been
      appended one by one: the last `HistoryCap` of them. */
  function Recent(log: seq<Entry>): (r: seq<Entry>)
    ensures |r| <= HistoryCap
  {
    if |log| <= HistoryCap then log else log[|log| - HistoryCap..]
  }

  /** One append followed by the eviction of the oldest entry when the log
      has grown past the cap (lines 60-62). */
  function AppendCapped(h: seq<Entry>, e: Entry): seq<Entry> {
    var g := h + [e];
    if |g| > HistoryCap then g[1..] else g
  }

  /** Appending with eviction to the recent part of a log gives the recent
      part of the longer log: the bounded log always holds exactly the last
      100 entries ever appended, oldest first. */
  lemma AppendCappedRecent(log: seq<Entry>, e: Entry)
    ensures AppendCapped(Recent(log), e) == Recent(log + [e])
  {
    var full := log + [e];
    if |log| >= HistoryCap {
      assert Recent(log) + [e] == full[|full| - HistoryCap - 1..];
      assert (Recent(log) + [e])[1..] == full[|full| - HistoryCap..];
    }
  }

  /** The eviction rule as the source states it: below the cap the entry is
      added at the end; at the cap the oldest entry (index 0) is dropped, the
      others keep their order, and the log stays at 100. */
  lemma AppendCappedShape(h: seq<Entry>, e: Entry)
    requires |h| <= HistoryCap
    ensures |h| < HistoryCap ==> AppendCapped(h, e) == h + [e]
    ensures |h| == HistoryCap ==>
              AppendCapped(h, e) == h[1..] + [e] && |AppendCapped(h, e)| == HistoryCap
    ensures |AppendCapped(h, e)| <= HistoryCap
    ensures AppendCapped(h, e)[|AppendCapped(h, e)| - 1] == e
  {
    if |h| == HistoryCap {
      assert (h + [e])[1..] == h[1..] + [e];
    }
  }

  /** A message just kept in the history is replayed to the next writer that
      joins as the very line that was broadcast for it, under the same
      display name, and just before the footer. */
  lemma ReplayedAsBroadcast(h: seq<Entry>, e: Entry, names: map<string, string>)
    requires |h| <= HistoryCap
    ensures var g := AppendCapped(h, e);
            && Replay(g, names)[|g|] == FormatLine(e.at, DisplayName(names, e.sender), e.text)
            && Replay(g, names)[|g| + 1] == HistoryFooter
  {
    AppendCappedShape(h, e);
    ReplayShape(AppendCapped(h, e), names);
  }

  // ------------------------------------------------ frame classification

  /** The three commands that end a session (compared after `lower()`). */
  const QuitCommands: set<string> := {"quit()", "close()", "exit()"}

  /** How a non-empty read is interpreted after `decode().strip()`. */
  datatype Frame = Blank | Quit | Message(text: string)

  function Classify(data: string): (f: Frame)
  {
    var message := Strip(data);
    if message == [] then Blank
    else if Lower(message) in QuitCommands then Quit
    else Message(message)
  }

  /** The classification, as the read loop applies it: a frame of whitespace
      only is skipped; a frame whose stripped, lower-cased text is one of the
      three commands ends the session; any other frame is a chat message whose
      text is the frame without its surrounding whitespace. */
  lemma ClassifySpec(data: string)
    ensures Classify(data) == Blank <==> AllSpace(data)
    ensures Classify(data) == Quit <==> Lower(Strip(data)) in QuitCommands
    ensures Classify(data).Message? <==>
              !AllSpace(data) && Lower(Strip(data)) !in QuitCommands
    ensures Classify(data).Message? ==>
              Classify(data).text == Strip(data) && Classify(data).text != []
              && !IsSpace(Classify(data).text[0])
              && !IsSpace(Classify(data).text[|Classify(data).text| - 1])
  {
    assert Lower([]) == [];
  }

  /** The characters a quit command starts and ends with. */
  predicate IsCommandEnd(c: char) {
    c == 'q' || c == 'c' || c == 'e' || c == ')'
  }

  lemma CommandShape(l: string)
    requires l in QuitCommands
    ensures |l| > 0 && IsCommandEnd(l[0]) && IsCommandEnd(l[|l| - 1])
  {
  }

  lemma CommandEndNotSpace(c: char)
    requires IsCommandEnd(LowerChar(c))
    ensures !IsSpace(c)
  {
  }

  /** The first and the last character of a quit command are not whitespace,
      whatever the case of its letters. */
  lemma CommandEnds(cmd: string)
    requires Lower(cmd) in QuitCommands
    ensures cmd != [] && !IsSpace(cmd[0]) && !IsSpace(cmd[|cmd| - 1])
  {
    var l := Lower(cmd);
    CommandShape(l);
    var n := |cmd|;
    assert l[0] == LowerChar(cmd[0]) && l[n - 1] == LowerChar(cmd[n - 1]);
    CommandEndNotSpace(cmd[0]);
    CommandEndNotSpace(cmd[n - 1]);
  }

  /** A quit command ends the session in any mix of upper and lower case and
      with any whitespace around it ("QUIT()", "Close()", " exit() \n"). */
  lemma ClassifyCommandPadded(pre: string, cmd: string, post: string)
    requires AllSpace(pre) && AllSpace(post) && Lower(cmd) in QuitCommands
    ensures Classify(pre + cmd + post) == Quit
  {
    CommandEnds(cmd);
    StripPadded(pre, cmd, post);
  }

  /** Whitespace around a chat message is dropped and nothing else: the text
      that is logged and broadcast is the message itself. */
  lemma ClassifyMessagePadded(pre: string, t: string, post: string)
    requires AllSpace(pre) && AllSpace(post)
    requires t != [] && !IsSpace(t[0]) && !IsSpace(t[|t| - 1])
    requires Lower(t) !in QuitCommands
    ensures Classify(pre + t + post) == Message(t)
  {
    StripPadded(pre, t, post);
  }

  // ------------------------------------------------------- survivors

  /** The members of `s` whose write does not fail, in order. */
  function Survivors(s: seq<Writer>, failing: set<Writer>): (r: seq<Writer>)
    ensures forall c :: c in r <==> c in s && c !in failing
    ensures |r| <= |s|
  {
    if s == [] then []
    else Survivors(s[..|s| - 1], failing)
         + (if s[|s| - 1] in failing then [] else [s[|s| - 1]])
  }

  lemma {:induction false} SurvivorsNoDuplicates(s: seq<Writer>, failing: set<Writer>)
    requires NoDuplicates(s)
    ensures NoDuplicates(Survivors(s, failing))
  {
    if s != [] {
      SurvivorsNoDuplicates(s[..|s| - 1], failing);
    }
  }

  // ---------------------------------------------------------- delivery

  /** What the map of transcripts holds for writer `c`. */
  function Inbox(m: map<Writer, seq<string>>, c: Writer): seq<string> {
    if c in m then m[c] else []
  }

  /** The transcripts after `msg` has been written to each of `rs`, in order. */
  function Deliver(m: map<Writer, seq<string>>, rs: seq<Writer>, msg: string): map<Writer, seq<string>> {
    if rs == [] then m
    else
      var d := Deliver(m, rs[..|rs| - 1], msg);
      d[rs[|rs| - 1] := Inbox(d, rs[|rs| - 1]) + [msg]]
  }

  /** Each writer of a list without repetitions receives the message exactly
      once, at the end of what it had; every other writer receives nothing. */
  lemma {:induction false} DeliverSpec(m: map<Writer, seq<string>>, rs: seq<Writer>, msg: string)
    requires NoDuplicates(rs)
    ensures forall c :: Inbox(Deliver(m, rs, msg), c) ==
              if c in rs then Inbox(m, c) + [msg] else Inbox(m, c)
    ensures forall c :: c in Deliver(m, rs, msg) <==> c in m || c in rs
  {
    if rs != [] {
      var init := rs[..|rs| - 1];
      var last := rs[|rs| - 1];
      NoDuplicatesInit(rs);
      DeliverSpec(m, init, msg);
      var d := Deliver(m, init, msg);
      var r := Deliver(m, rs, msg);
      assert r == d[last := Inbox(d, last) + [msg]];
      assert rs == init + [last];
      forall c ensures Inbox(r, c) == (if c in rs then Inbox(m, c) + [msg] else Inbox(m, c))
                       && (c in r <==> c in m || c in rs) {
        assert c in rs <==> c in init || c == last;
      }
    }
  }

  // ------------------------------------------------------ session events

  /** What one wait for input in the read loop produced. */
  datatype Event =
    | Received(data: string, at: Clock, failing: set<Writer>)
      // `reader.read(1024)` returned `data`, decoded (the empty text is the
      // empty read of a peer that closed); the clock read `at` when the line
      // was stamped, and the writes of its broadcast raise ConnectionError
      // for the writers in `failing`
    | Idle          // 300 seconds without data: asyncio.TimeoutError
    | Lost          // ConnectionError or CancelledError while reading
    | Undecodable   // the bytes read were not UTF-8: UnicodeDecodeError

  datatype EndReason = PeerClosed | QuitRequested | Inactive | ConnectionLost | DecodeFailed

  /** A session is still reading, or has ended after consuming `after` events. */
  datatype Status = Reading | Ended(reason: EndReason, after: nat)

  /** The reason the event ends the session, if it does. */
  function EndsWith(ev: Event): (r: Option<EndReason>)
  {
    match ev
    case Received(data, _, _) =>
      if data == [] then Some(PeerClosed)
      else if Classify(data) == Quit then Some(QuitRequested)
      else None
    case Idle => Some(Inactive)
    case Lost => Some(ConnectionLost)
    case Undecodable => Some(DecodeFailed)
  }

  /** The state of a session given, read by read, whether the read ended it:
      the first read that ends it decides the reason. */
  function FirstEnd(ends: seq<Option<EndReason>>): Status
  {
    if ends == [] then Reading
    else
      var prior := FirstEnd(ends[..|ends| - 1]);
      if prior.Ended? then prior
      else
        match ends[|ends| - 1]
        case Some(r) => Ended(r, |ends|)
        case None => Reading
  }

  lemma {:induction false} FirstEndSpec(ends: seq<Option<EndReason>>)
    ensures FirstEnd(ends) == Reading <==> forall k :: 0 <= k < |ends| ==> ends[k].None?
    ensures FirstEnd(ends).Ended? ==>
              var n := FirstEnd(ends).after;
              && 0 < n <= |ends| && ends[n - 1] == Some(FirstEnd(ends).reason)
              && forall k :: 0 <= k < n - 1 ==> ends[k].None?
  {
    if ends != [] {
      var init := ends[..|ends| - 1];
      FirstEndSpec(init);
      assert forall k :: 0 <= k < |init| ==> init[k] == ends[k];
    }
  }

  /** Once a read has ended the session, later reads change nothing. */
  lemma {:induction false} FirstEndAfter(ends: seq<Option<EndReason>>, n: nat)
    requires 0 < n <= |ends| && FirstEnd(ends[..n]).Ended?
    ensures FirstEnd(ends) == FirstEnd(ends[..n])
    decreases |ends|
  {
    if n < |ends| {
      var init := ends[..|ends| - 1];
      assert init[..n] == ends[..n];
      FirstEndAfter(init, n);
    } else {
      assert ends[..n] == ends;
    }
  }

  /** Whether each event ends the session, event by event. */
  function EndsOf(evs: seq<Event>): (r: seq<Option<EndReason>>)
    ensures |r| == |evs| && forall k :: 0 <= k < |evs| ==> r[k] == EndsWith(evs[k])
  {
    seq(|evs|, k requires 0 <= k < |evs| => EndsWith(evs[k]))
  }

  /** The state of a session after the events `evs`. */
  function Outcome(evs: seq<Event>): Status
  {
    FirstEnd(EndsOf(evs))
  }

  /** A session is still reading exactly when no event so far ends it; when
      it has ended, it ended at the first event that ends it. */
  lemma OutcomeSpec(evs: seq<Event>)
    ensures Outcome(evs) == Reading <==> forall k :: 0 <= k < |evs| ==> EndsWith(evs[k]).None?
    ensures Outcome(evs).Ended? ==>
              var n := Outcome(evs).after;
              && 0 < n <= |evs| && EndsWith(evs[n - 1]) == Some(Outcome(evs).reason)
              && forall k :: 0 <= k < n - 1 ==> EndsWith(evs[k]).None?
  {
    var e := EndsOf(evs);
    FirstEndSpec(e);
    if Outcome(evs).Ended? {
      var n := Outcome(evs).after;
      assert e[n - 1] == EndsWith(evs[n - 1]);
      forall k | 0 <= k < n - 1 ensures EndsWith(evs[k]).None? {
        assert e[k] == EndsWith(evs[k]);
      }
    }
  }

  /** One more event: it decides the outcome exactly when none before did. */
  lemma OutcomeStep(evs: seq<Event>, i: nat)
    requires i < |evs|
    ensures Outcome(evs[..i + 1]) ==
              if Outcome(evs[..i]).Ended? then Outcome(evs[..i])
              else match EndsWith(evs[i])
                   case Some(r) => Ended(r, i + 1)
                   case None => Reading
  {
    var e := EndsOf(evs[..i + 1]);
    assert e[..i] == EndsOf(evs[..i]);
  }

  /** Once an event has ended the session, later events change nothing. */
  lemma OutcomeAfterEnd(evs: seq<Event>, n: nat)
    requires 0 < n <= |evs| && Outcome(evs[..n]).Ended?
    ensures Outcome(evs) == Outcome(evs[..n])
  {
    assert EndsOf(evs)[..n] == EndsOf(evs[..n]);
    FirstEndAfter(EndsOf(evs), n);
  }

  /** The history entry a read adds, if it adds one. */
  function SaidBy(id: Identity, ev: Event): seq<Entry> {
    match ev
    case Received(data, at, _) =>
      if data != [] && Classify(data).Message? then [Entry(id, Classify(data).text, at)] else []
    case _ => []
  }

  /** The entries that the events `evs` of the session of `id` append. */
  function Said(id: Identity, evs: seq<Event>): (r: seq<Entry>)
    ensures |r| <= |evs|
    ensures forall k :: 0 <= k < |r| ==> r[k].sender == id
  {
    if evs == [] then [] else Said(id, evs[..|evs| - 1]) + SaidBy(id, evs[|evs| - 1])
  }

  /** The event is a read whose frame is a chat message. */
  predicate IsChat(ev: Event) {
    ev.Received? && ev.data != [] && Classify(ev.data).Message?
  }

  /** The line broadcast for a chat message of `id`. */
  function ChatLine(names: map<string, string>, id: Identity, ev: Event): string
    requires IsChat(ev)
  {
    FormatLine(ev.at, DisplayName(names, id), Classify(ev.data).text)
  }

  /** The registry and the transcripts, as a read of the session changes them. */
  datatype Net = Net(clients: seq<Writer>, sent: map<Writer, seq<string>>)

  /** What one read of the session of `id` does to the registry and the
      transcripts: a chat message is written to every registered writer, in
      registry order, except those whose write fails, which are dropped; any
      other event changes neither. */
  function HeardBy(n: Net, names: map<string, string>, id: Identity, ev: Event): Net {
    if IsChat(ev) then
      var reached := Survivors(n.clients, ev.failing);
      Net(reached, Deliver(n.sent, reached, ChatLine(names, id, ev)))
    else n
  }

  /** The registry and the transcripts after the reads `evs`, one after the other. */
  function Heard(n: Net, names: map<string, string>, id: Identity, evs: seq<Event>): Net {
    if evs == [] then n else HeardBy(Heard(n, names, id, evs[..|evs| - 1]), names, id, evs[|evs| - 1])
  }

  /** One more read takes the registry and the transcripts one step further. */
  lemma HeardFacts(start: Net, names: map<string, string>, id: Identity, evs: seq<Event>, i: nat,
                   before: Net, after: Net)
    requires i < |evs| && before == Heard(start, names, id, evs[..i])
    requires IsChat(evs[i]) ==>
               && after.clients == Survivors(before.clients, evs[i].failing)
               && after.sent == Deliver(before.sent, after.clients, ChatLine(names, id, evs[i]))
    requires !IsChat(evs[i]) ==> after == before
    ensures after == Heard(start, names, id, evs[..i + 1])
  {
    HeardStep(start, names, id, evs, i);
  }

  lemma HeardStep(n: Net, names: map<string, string>, id: Identity, evs: seq<Event>, i: nat)
    requires i < |evs|
    ensures Heard(n, names, id, evs[..i + 1]) == HeardBy(Heard(n, names, id, evs[..i]), names, id, evs[i])
  {
    assert evs[..i + 1][..i] == evs[..i];
  }

  /** A chat message reaches each registered writer whose write succeeds
      exactly once, as its last line, and reaches no one else. */
  lemma HeardByInbox(n: Net, names: map<string, string>, id: Identity, ev: Event)
    requires NoDuplicates(n.clients)
    requires IsChat(ev)
    ensures var line := ChatLine(names, id, ev);
            forall c :: Inbox(HeardBy(n, names, id, ev).sent, c) ==
                          if c in n.clients && c !in ev.failing then Inbox(n.sent, c) + [line] else Inbox(n.sent, c)
  {
    SurvivorsNoDuplicates(n.clients, ev.failing);
    DeliverSpec(n.sent, Survivors(n.clients, ev.failing), ChatLine(names, id, ev));
  }

  /** Delivery only appends: what a writer had received stays at the head
      of its transcript. */
  lemma {:induction false} DeliverExtends(m: map<Writer, seq<string>>, rs: seq<Writer>, msg: string)
    ensures forall c :: Inbox(m, c) <= Inbox(Deliver(m, rs, msg), c)
  {
    if rs != [] {
      DeliverExtends(m, rs[..|rs| - 1], msg);
    }
  }

  /** Reads only append to transcripts and only drop writers from the registry. */
  lemma {:induction false} HeardExtends(n: Net, names: map<string, string>, id: Identity, evs: seq<Event>)
    ensures forall c :: Inbox(n.sent, c) <= Inbox(Heard(n, names, id, evs).sent, c)
    ensures forall c :: c in Heard(n, names, id, evs).clients ==> c in n.clients
  {
    if evs != [] {
      var m := Heard(n, names, id, evs[..|evs| - 1]);
      HeardExtends(n, names, id, evs[..|evs| - 1]);
      var ev := evs[|evs| - 1];
      if IsChat(ev) {
        DeliverExtends(m.sent, Survivors(m.clients, ev.failing), ChatLine(names, id, ev));
      }
    }
  }

  /** Only chat messages reach the log: a session whose frames are all blank
      or end it appends nothing. */
  lemma {:induction false} SaidOnlyMessages(id: Identity, evs: seq<Event>)
    requires forall k :: 0 <= k < |evs| ==>
               evs[k].Received? ==> evs[k].data == [] || !Classify(evs[k].data).Message?
    ensures Said(id, evs) == []
  {
    if evs != [] {
      SaidOnlyMessages(id, evs[..|evs| - 1]);
    }
  }

  /** The number of events a session consumes. */
  function Consumed(st: Status, total: nat): nat {
    if st.Ended? then st.after else total
  }

  // --------------------------------------------------------- the server

  class ChatServer {
    /** `clients`: the writers of the registered sessions, in join order. */
    var clients: seq<Writer>
    /** `message_history`: at most the last 100 entries, oldest first. */
    var history: seq<Entry>
    /** `client_names`: identity -> display name. */
    var names: map<string, string>
    /** Everything written to each writer so far, in order. */
    var sent: map<Writer, seq<string>>
    /** All entries ever appended, of which `history` keeps the recent part. */
    ghost var log: seq<Entry>

    ghost predicate Valid()
      reads this
    {
      NoDuplicates(clients) && history == Recent(log)
    }

    constructor ()
      ensures Valid()
      ensures clients == [] && history == [] && names == map[] && sent == map[] && log == []
    {
      clients := [];
      history := [];
      names := map[];
      sent := map[];
      log := [];
    }

    /** `writer.write(...)`: the message is added to what `w` has received. */
    method Send(w: Writer, msg: string)
      modifies this
      ensures sent == old(sent)[w := Inbox(old(sent), w) + [msg]]
      ensures clients == old(clients) && history == old(history)
      ensures names == old(names) && log == old(log)
    {
      sent := sent[w := Inbox(sent, w) + [msg]];
    }

    /** Lines 18-34: register the new writer, send the welcome naming its
        identity and, when the log is not empty, the framed replay of the
        whole log in order. */
    method Join(w: Writer, id: Identity)
      requires Valid() && w !in clients
      modifies this
      ensures Valid()
      ensures clients == old(clients) + [w]
      ensures history == old(history) && names == old(names) && log == old(log)
      ensures sent == old(sent)[w := Inbox(old(sent), w) + [Welcome(id)] + Replay(history, names)]
    {
      ghost var before := Inbox(sent, w);
      NoDuplicatesSnoc(clients, w);
      clients := clients + [w];
      Send(w, Welcome(id));
      UpdateInbox(old(sent), w, before, [Welcome(id)]);
      SendHistory(w);
      if history == [] {
        assert before + [Welcome(id)] + Replay(history, names) == before + [Welcome(id)];
      } else {
        UpdateInbox(old(sent), w, before + [Welcome(id)], Replay(history, names));
      }
    }

    /** Lines 26-33: when the log is not empty, send `w` the header, one line
        per entry in log order, and the footer. */
    method SendHistory(w: Writer)
      modifies this
      ensures history == [] ==> sent == old(sent)
      ensures history != [] ==> sent == old(sent)[w := Inbox(old(sent), w) + Replay(history, names)]
      ensures clients == old(clients) && history == old(history)
      ensures names == old(names) && log == old(log)
    {
      if history != [] {
        ghost var head := Inbox(sent, w) + [HistoryHeader];
        Send(w, HistoryHeader);
        var lines := RenderLines(history, names);
        var i := 0;
        assert head == head + lines[..0];
        while i < |history|
          invariant 0 <= i <= |history|
          invariant clients == old(clients) && history == old(history)
          invariant names == old(names) && log == old(log)
          invariant sent == old(sent)[w := head + lines[..i]]
        {
          Send(w, EntryLine(history[i], names));
          UpdateInbox(old(sent), w, head + lines[..i], [lines[i]]);
          SnocSlice(head, lines, i);
          i := i + 1;
        }
        Send(w, HistoryFooter);
        assert lines[..i] == lines;
        UpdateInbox(old(sent), w, head + lines, [HistoryFooter]);
        assert Replay(history, names) == [HistoryHeader] + lines + [HistoryFooter];
        AppendAssoc3(Inbox(old(sent), w), HistoryHeader, lines, HistoryFooter);
      }
    }

    /** Lines 73-75: remove `w` from the registry if it is there; every other
        writer stays, in order. */
    method Deregister(w: Writer)
      requires Valid()
      modifies this
      ensures Valid()
      ensures w !in clients
      ensures clients == RemoveFirst(old(clients), w)
      ensures forall c :: c != w ==> (c in clients <==> c in old(clients))
      ensures history == old(history) && names == old(names)
      ensures sent == old(sent) && log == old(log)
    {
      if w in clients {
        var i := IndexOf(clients, w);
        var a, b := clients[..i], clients[i + 1..];
        SplitAt(clients, i);
        NoDuplicatesSplit(a, w, b);
        RemoveFirstAt(a, w, b);
        clients := a + b;
      }
    }

    /** Lines 59-62: append one entry and drop the oldest when the log holds
        more than 100. */
    method AppendHistory(e: Entry)
      requires Valid()
      modifies this
      ensures Valid()
      ensures log == old(log) + [e]
      ensures history == AppendCapped(old(history), e)
      ensures clients == old(clients) && names == old(names) && sent == old(sent)
    {
      history := history + [e];
      if |history| > HistoryCap {
        history := history[1..];
      }
      AppendCappedRecent(log, e);
      log := log + [e];
    }

    /** Lines 80-97: write `msg` to every writer of a snapshot of the
        registry, the sender included; a writer whose write raises
        ConnectionError is deregistered and the fan-out goes on.  No writer
        is written to twice (see `DeliverSpec`). */
    method Broadcast(msg: string, sender: Writer, failing: set<Writer>) returns (reached: seq<Writer>)
      requires Valid()
      modifies this
      ensures Valid()
      ensures reached == Survivors(old(clients), failing)
      ensures clients == reached
      ensures sent == Deliver(old(sent), reached, msg)
      ensures history == old(history) && names == old(names) && log == old(log)
    {
      var snapshot := clients;
      reached := [];
      var i := 0;
      while i < |snapshot|
        invariant 0 <= i <= |snapshot|
        invariant Valid()
        invariant reached == Survivors(snapshot[..i], failing)
        invariant clients == reached + snapshot[i..]
        invariant sent == Deliver(old(sent), reached, msg)
        invariant history == old(history) && names == old(names) && log == old(log)
      {
        var c := snapshot[i];
        SliceStep(snapshot, i);
        AppendAssoc(reached, c, snapshot[i + 1..]);
        SurvivorsSnoc(snapshot[..i], c, failing);
        reached := WriteOne(c, msg, failing, reached, snapshot[i + 1..], old(sent));
        i := i + 1;
      }
      assert snapshot[..|snapshot|] == snapshot;
    }

    /** Lines 86-94, one round of the fan-out: the message is written to `c`;
        if that raises ConnectionError, `c` is taken out of the registry
        instead. */
    method WriteOne(c: Writer, msg: string, failing: set<Writer>, done: seq<Writer>, rest: seq<Writer>,
                    ghost before: map<Writer, seq<string>>)
      returns (reached: seq<Writer>)
      requires Valid() && clients == done + [c] + rest
      requires sent == Deliver(before, done, msg)
      modifies this
      ensures Valid()
      ensures reached == done + (if c in failing then [] else [c])
      ensures clients == reached + rest
      ensures sent == Deliver(before, reached, msg)
      ensures history == old(history) && names == old(names) && log == old(log)
    {
      NoDuplicatesSplit(done, c, rest);
      if c in failing {
        RemoveFirstAt(done, c, rest);
        Deregister(c);
        reached := done;
      } else {
        Send(c, msg);
        DeliverSnoc(before, done, c, msg);
        reached := done + [c];
      }
    }

    /** Lines 46-64: interpret one non-empty read of the session of `w`:
        whitespace is skipped, a quit command is reported, anything else is
        stamped, appended to the log and broadcast to everyone. */
    method ProcessFrame(w: Writer, id: Identity, data: string, at: Clock, failing: set<Writer>)
      returns (frame: Frame)
      requires Valid()
      modifies this
      ensures Valid()
      ensures frame == Classify(data)
      ensures !frame.Message? ==>
                clients == old(clients) && history == old(history) && sent == old(sent) && log == old(log)
      ensures frame.Message? ==>
                && log == old(log) + [Entry(id, frame.text, at)]
                && history == AppendCapped(old(history), Entry(id, frame.text, at))
                && clients == Survivors(old(clients), failing)
                && sent == Deliver(old(sent), clients, FormatLine(at, DisplayName(names, id), frame.text))
      ensures names == old(names)
    {
      frame := Classify(data);
      if frame.Message? {
        var line := FormatLine(at, DisplayName(names, id), frame.text);
        AppendHistory(Entry(id, frame.text, at));
        var reached := Broadcast(line, w, failing);
      }
    }

    /** Lines 13-78, `handle_client`: join, then read until an event ends the
        session, then deregister.  When the events run out first the session
        is still registered and waiting for its next read. */
    method Session(w: Writer, id: Identity, events: seq<Event>) returns (status: Status)
      requires Valid() && w !in clients
      modifies this
      ensures Valid()
      ensures status == Outcome(events)
      ensures status.Ended? ==> status.after <= |events|
      ensures log == old(log) + Said(id, events[..Consumed(status, |events|)])
      ensures status.Ended? ==> w !in clients
      ensures forall c :: c in clients ==> c in old(clients) || c == w
      ensures names == old(names)
      ensures var joined := Net(old(clients) + [w],
                                old(sent)[w := Inbox(old(sent), w) + [Welcome(id)] + Replay(old(history), old(names))]);
              var heard := Heard(joined, old(names), id, events[..Consumed(status, |events|)]);
              && sent == heard.sent
              && clients == (if status.Ended? then RemoveFirst(heard.clients, w) else heard.clients)
      ensures Inbox(old(sent), w) + [Welcome(id)] + Replay(old(history), old(names)) <= Inbox(sent, w)
    {
      Join(w, id);
      ghost var joined := Net(clients, sent);
      status := ReadLoop(w, id, events);
      HeardExtends(joined, names, id, events[..Consumed(status, |events|)]);
      if status.Ended? {
        Deregister(w);
      }
    }

    /** Lines 38-71: read until an event ends the session or the events run
        out. */
    method ReadLoop(w: Writer, id: Identity, events: seq<Event>) returns (status: Status)
      requires Valid()
      modifies this
      ensures Valid()
      ensures status == Outcome(events)
      ensures status.Ended? ==> status.after <= |events|
      ensures log == old(log) + Said(id, events[..Consumed(status, |events|)])
      ensures forall c :: c in clients ==> c in old(clients)
      ensures names == old(names)
      ensures Net(clients, sent) == Heard(Net(old(clients), old(sent)), names, id, events[..Consumed(status, |events|)])
    {
      ghost var start := Net(clients, sent);
      var i := 0;
      status := Reading;
      while i < |events|
        invariant 0 <= i <= |events|
        invariant Valid()
        invariant Outcome(events[..i]) == Reading
        invariant log == old(log) + Said(id, events[..i])
        invariant forall c :: c in clients ==> c in old(clients)
        invariant names == old(names)
        invariant Net(clients, sent) == Heard(start, names, id, events[..i])
      {
        ghost var before := Net(clients, sent);
        var end := HandleRead(w, id, events[i]);
        ReadFacts(id, events, i, old(log), log, end);
        HeardFacts(start, names, id, events, i, before, Net(clients, sent));
        if end.Some? {
          status := Ended(end.value, i + 1);
          break;
        }
        i := i + 1;
      }
      if status == Reading {
        assert events[..|events|] == events;
      }
    }

    /** Lines 40-68, one pass of the read loop: the event is reported as the
        reason the session ends, if it ends it; otherwise a non-empty read is
        classified and, if it is a chat message, logged and broadcast. */
    method HandleRead(w: Writer, id: Identity, ev: Event) returns (end: Option<EndReason>)
      requires Valid()
      modifies this
      ensures Valid()
      ensures end == EndsWith(ev)
      ensures log == old(log) + SaidBy(id, ev)
      ensures forall c :: c in clients ==> c in old(clients)
      ensures names == old(names)
      ensures IsChat(ev) ==>
                && clients == Survivors(old(clients), ev.failing)
                && sent == Deliver(old(sent), clients, ChatLine(names, id, ev))
      ensures !IsChat(ev) ==> clients == old(clients) && sent == old(sent)
    {
      end := EndsWith(ev);
      if end.None? && ev.Received? {
        var frame := ProcessFrame(w, id, ev.data, ev.at, ev.failing);
      } else {
        assert log == log + [];
      }
    }

    /** Lines 107-116: on shutdown every registered writer is closed, in
        registry order; the registry itself is not changed. */
    method Shutdown() returns (closed: seq<Writer>)
      ensures closed == clients
    {
      closed := [];
      for i := 0 to |clients|
        invariant closed == clients[..i]
      {
        closed := closed + [clients[i]];
        assert clients[..i + 1] == clients[..i] + [clients[i]];
      }
      assert clients[..|clients|] == clients;
    }
  }

  lemma DeliverSnoc(m: map<Writer, seq<string>>, rs: seq<Writer>, c: Writer, msg: string)
    ensures Deliver(m, rs + [c], msg) == Deliver(m, rs, msg)[c := Inbox(Deliver(m, rs, msg), c) + [msg]]
  {
    assert (rs + [c])[..|rs|] == rs;
  }

  lemma SurvivorsSnoc(s: seq<Writer>, c: Writer, failing: set<Writer>)
    ensures Survivors(s + [c], failing) == Survivors(s, failing) + (if c in failing then [] else [c])
  {
    assert (s + [c])[..|s|] == s;
  }

  lemma SaidStep(id: Identity, evs: seq<Event>, i: nat)
    requires i < |evs|
    ensures Said(id, evs[..i + 1]) == Said(id, evs[..i]) + SaidBy(id, evs[i])
  {
    assert evs[..i + 1][..i] == evs[..i];
  }

  /** What one more read contributes to the outcome and to the log. */
  lemma ReadFacts(id: Identity, events: seq<Event>, i: nat, start: seq<Entry>, after: seq<Entry>,
                  end: Option<EndReason>)
    requires i < |events| && Outcome(events[..i]) == Reading
    requires end == EndsWith(events[i])
    requires after == start + Said(id, events[..i]) + SaidBy(id, events[i])
    ensures after == start + Said(id, events[..i + 1])
    ensures end.None? ==> Outcome(events[..i + 1]) == Reading
    ensures end.Some? ==> Outcome(events) == Ended(end.value, i + 1)
  {
    OutcomeStep(events, i);
    SaidStep(id, events, i);
    AppendAssocSeq(start, Said(id, events[..i]), SaidBy(id, events[i]));
    if end.Some? {
      OutcomeAfterEnd(events, i + 1);
    }
  }

  lemma UpdateInbox(m: map<Writer, seq<string>>, w: Writer, a: seq<string>, xs: seq<string>)
    ensures m[w := a][w := Inbox(m[w := a], w) + xs] == m[w := a + xs]
  {
  }

}
