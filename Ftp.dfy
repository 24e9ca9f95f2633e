/** The toy FTP server of lab_00/ftp_asyncio.py: per connection, a loop that reads a command, splits
    it into words and answers LIST, GET, PUT and QUIT against the entries of
    its root directory.

    The root directory is a map from entry names to files and folders,
    together with the order in which `iterdir` lists them.  The socket is a
    list of what each `reader.read` returned; the UTF-8 decoding of a
    command is a function parameter; what the server writes is a list of
    replies. */
module Ftp {
  import opened PyText
  import opened Wrappers
  import opened Seqs

  type Byte = bv8

  /** An entry of the root directory. */
  datatype Node = File(content: seq<Byte>) | Folder

  /** The root directory: its entries by name and the listing order. */
  datatype Root = Root(entries: map<string, Node>, order: seq<string>)

  /** The listing names every entry exactly once, and nothing else. */
  ghost predicate WellListed(d: Root) {
    NoDuplicates(d.order) && forall n :: n in d.order <==> n in d.entries
  }

  /** One write to the client: a text sent as `response.encode()`, or the
      raw bytes of a file. */
  datatype Reply = Text(text: string) | Raw(bytes: seq<Byte>)

  const MissingFilename: string := "ERROR: Missing filename"
  const FileNotFound: string := "ERROR: File not found"
  const UnknownCommand: string := "ERROR: Unknown command"
  const EmptyListing: string := "Empty"

  // ----------------------------------------------------------- commands

  /** What the words of one command ask for. */
  datatype Command = Blank | List | Get(name: string) | Put(name: string) | Quit | MissingName | Unknown

  /** Lines 26-61: the dispatch on `parts[0].upper()`; GET and PUT take
      `parts[1]` as the file name and ignore any further words. */
  function CommandOf(parts: seq<string>): Command {
    if parts == [] then Blank
    else
      var cmd := Upper(parts[0]);
      if cmd == "LIST" then List
      else if cmd == "GET" then (if |parts| < 2 then MissingName else Get(parts[1]))
      else if cmd == "PUT" then (if |parts| < 2 then MissingName else Put(parts[1]))
      else if cmd == "QUIT" then Quit
      else Unknown
  }

  /** Lines 21-22: `command.decode().strip().split()`. */
  function ParseCommand(text: string): Command {
    CommandOf(Words(Strip(text)))
  }

  /** A command is blank exactly when its text is all whitespace. */
  lemma ParseBlank(text: string)
    ensures ParseCommand(text) == Blank <==> AllSpace(text)
  {
    var r := Strip(text);
    if r != [] {
      assert !IsSpace(r[0]);
    }
  }

  /** The words of a command are recovered whatever whitespace surrounds them. */
  lemma ParseWords(pre: string, ws: seq<string>, post: string)
    requires AllSpace(pre) && AllSpace(post) && |ws| >= 1
    requires forall k :: 0 <= k < |ws| ==> ws[k] != [] && NoSpace(ws[k])
    ensures ParseCommand(pre + JoinSpace(ws) + post) == CommandOf(ws)
  {
    var j := JoinSpace(ws);
    JoinSpaceEdges(ws);
    var last := ws[|ws| - 1];
    assert !IsSpace(ws[0][0]) && !IsSpace(last[|last| - 1]);
    StripPadded(pre, j, post);
    WordsOfJoin(ws);
  }

  /** The words of a command are recovered whatever whitespace surrounds
      and separates them: "GET  f" and "GET\tf" ask for the same file as
      "GET f". */
  lemma ParseAnySpacing(pre: string, ws: seq<string>, gaps: seq<string>, post: string)
    requires AllSpace(pre) && AllSpace(post) && |ws| >= 1 && |gaps| == |ws| - 1 && AllGaps(gaps)
    requires forall k :: 0 <= k < |ws| ==> ws[k] != [] && NoSpace(ws[k])
    ensures ParseCommand(pre + GapJoin(ws, gaps) + post) == CommandOf(ws)
  {
    var j := GapJoin(ws, gaps);
    GapJoinEdges(ws, gaps);
    var last := ws[|ws| - 1];
    assert !IsSpace(ws[0][0]) && !IsSpace(last[|last| - 1]);
    StripPadded(pre, j, post);
    WordsOfGapJoin(ws, gaps);
  }

  /** The command word is matched in any mix of case: two commands whose
      first words upper-case alike mean the same. */
  lemma ParseCaseInsensitive(pre: string, w1: string, w2: string, args: seq<string>, post: string)
    requires AllSpace(pre) && AllSpace(post) && Upper(w1) == Upper(w2)
    requires w1 != [] && NoSpace(w1) && w2 != [] && NoSpace(w2)
    requires forall k :: 0 <= k < |args| ==> args[k] != [] && NoSpace(args[k])
    ensures ParseCommand(pre + JoinSpace([w1] + args) + post)
            == ParseCommand(pre + JoinSpace([w2] + args) + post)
  {
    WordsCons(w1, args);
    WordsCons(w2, args);
    ParseWords(pre, [w1] + args, post);
    ParseWords(pre, [w2] + args, post);
    CommandOfCase(w1, w2, args);
  }

  /** The dispatch looks at the first word only through its upper case. */
  lemma CommandOfCase(w1: string, w2: string, args: seq<string>)
    requires Upper(w1) == Upper(w2)
    ensures CommandOf([w1] + args) == CommandOf([w2] + args)
  {
    assert ([w1] + args)[0] == w1 && ([w2] + args)[0] == w2;
    if args != [] {
      assert ([w1] + args)[1] == args[0] && ([w2] + args)[1] == args[0];
    }
  }

  // ------------------------------------------------------ the directory

  /** Lines 28-30: the LIST reply. */
  function Listing(d: Root): string {
    if d.order == [] then EmptyListing else Join(d.order, "\n")
  }

  /** A listing of names without newlines splits back into the names. */
  lemma ListingNames(d: Root)
    requires d.order != []
    requires forall k :: 0 <= k < |d.order| ==> FreeOf(d.order[k], "\n")
    ensures SplitOn(Listing(d), "\n") == d.order
  {
    SplitOnJoin(d.order, "\n");
  }

  /** An empty directory and a directory holding one file named "Empty" get
      the same LIST reply. */
  lemma ListingAmbiguous(content: seq<Byte>)
    ensures Listing(Root(map[], [])) == Listing(Root(map[EmptyListing := File(content)], [EmptyListing]))
  {
  }

  /** `root / name` is a directory: the root itself for ".", or a folder
      entry.  Opening it for reading or writing raises. */
  predicate IsDirectory(d: Root, name: string) {
    name == "." || (name in d.entries && d.entries[name].Folder?)
  }

  /** Lines 51-53: the directory after `name` has been written with `data`. */
  function Stored(d: Root, name: string, data: seq<Byte>): Root {
    Root(d.entries[name := File(data)], if name in d.entries then d.order else d.order + [name])
  }

  /** Writing a file gives it exactly the bytes written, replaces what it
      held before, leaves every other entry as it was, and keeps the listing
      exact (a new name is listed last). */
  lemma StoredSpec(d: Root, name: string, data: seq<Byte>)
    requires WellListed(d)
    ensures var r := Stored(d, name, data);
            && WellListed(r)
            && name in r.entries && r.entries[name] == File(data)
            && (forall n :: n != name ==> (n in r.entries <==> n in d.entries))
            && (forall n :: n != name && n in d.entries ==> r.entries[n] == d.entries[n])
            && (name in d.entries ==> r.order == d.order)
            && (name !in d.entries ==> r.order == d.order + [name])
  {
    if name !in d.entries {
      NoDuplicatesSnoc(d.order, name);
    }
  }

  // ------------------------------------------------------------ sessions

  /** How a session ends: still waiting for the next read, the peer closed,
      QUIT was answered, or an exception ended the handler (a command that
      is not UTF-8, GET or PUT of a directory). */
  datatype Ending = Waiting | PeerClosed | QuitSent | Crashed

  /** One pass of the command loop: it goes on at read `next`, or it stops. */
  datatype Step =
    | Continue(out: seq<Reply>, root: Root, next: nat)
    | Stop(out: seq<Reply>, root: Root, ending: Ending)

  /** Lines 26-64: what the pass at read `i` does for the command `cmd`,
      given what the read after it returns, if there is one (a PUT reads its
      data there). */
  function StepFor(d: Root, cmd: Command, data: Option<seq<Byte>>, i: nat): (s: Step)
    ensures s.Continue? ==> s.next == i + 1 || (data.Some? && s.next == i + 2)
  {
    match cmd
    case Blank => Continue([], d, i + 1)
    case List => Continue([Text(Listing(d))], d, i + 1)
    case MissingName => Continue([Text(MissingFilename)], d, i + 1)
    case Get(name) =>
      if IsDirectory(d, name) then Stop([], d, Crashed)
      else if name !in d.entries then Continue([Text(FileNotFound)], d, i + 1)
      else Continue([Raw(d.entries[name].content)], d, i + 1)
    case Put(name) =>
      if data.None? then Stop([Text("READY")], d, Waiting)
      else if IsDirectory(d, name) then Stop([Text("READY")], d, Crashed)
      else Continue([Text("READY"), Text("OK")], Stored(d, name, data.value), i + 2)
    case Quit => Stop([Text("BYE")], d, QuitSent)
    case Unknown => Continue([Text(UnknownCommand)], d, i + 1)
  }

  /** Lines 17-24: the pass at read `i` of a session whose reads returned
      `chunks`: an empty read means the peer closed, a read that does not
      decode raises. */
  function StepAt(d: Root, chunks: seq<seq<Byte>>, decode: seq<Byte> -> Option<string>, i: nat): (s: Step)
    requires i < |chunks|
    ensures s.Continue? ==> i < s.next <= |chunks|
  {
    if chunks[i] == [] then Stop([], d, PeerClosed)
    else match decode(chunks[i])
      case None => Stop([], d, Crashed)
      case Some(text) =>
        StepFor(d, ParseCommand(text), if i + 1 < |chunks| then Some(chunks[i + 1]) else None, i)
  }

  /** Only a PUT looks at the read after its own, and only to store it. */
  lemma StepForData(d: Root, cmd: Command, x: seq<Byte>, i: nat)
    requires StepFor(d, cmd, None, i) != Stop([Text("READY")], d, Waiting)
    ensures StepFor(d, cmd, Some(x), i) == StepFor(d, cmd, None, i)
  {
  }

  /** Everything a session writes, the directory it leaves, and how it ends. */
  datatype Trace = Trace(replies: seq<Reply>, root: Root, ending: Ending)

  function Then(out: seq<Reply>, t: Trace): Trace {
    Trace(out + t.replies, t.root, t.ending)
  }

  /** Lines 11-64, `handle_client`, from read `i` on. */
  function Run(d: Root, chunks: seq<seq<Byte>>, decode: seq<Byte> -> Option<string>, i: nat): Trace
    requires i <= |chunks|
    decreases |chunks| - i
  {
    if i == |chunks| then Trace([], d, Waiting)
    else match StepAt(d, chunks, decode, i)
      case Continue(out, d', j) => Then(out, Run(d', chunks, decode, j))
      case Stop(out, d', e) => Trace(out, d', e)
  }

  /** A blank command gets no reply and the loop reads on. */
  lemma StepBlank(d: Root, chunks: seq<seq<Byte>>, decode: seq<Byte> -> Option<string>, i: nat)
    requires i < |chunks| && chunks[i] != []
    requires decode(chunks[i]).Some? && AllSpace(decode(chunks[i]).value)
    ensures StepAt(d, chunks, decode, i) == Continue([], d, i + 1)
  {
    ParseBlank(decode(chunks[i]).value);
  }

  /** A command read at `i` whose words are `w` and `args`, surrounded by
      any whitespace, gets the pass that `CommandOf` chooses for those words
      (see `CommandOfWords`). */
  lemma StepCommand(d: Root, chunks: seq<seq<Byte>>, decode: seq<Byte> -> Option<string>, i: nat,
                    pre: string, w: string, args: seq<string>, post: string)
    requires i < |chunks| && chunks[i] != []
    requires decode(chunks[i]) == Some(pre + JoinSpace([w] + args) + post)
    requires AllSpace(pre) && AllSpace(post) && w != [] && NoSpace(w)
    requires forall k :: 0 <= k < |args| ==> args[k] != [] && NoSpace(args[k])
    ensures StepAt(d, chunks, decode, i)
            == StepFor(d, CommandOf([w] + args), if i + 1 < |chunks| then Some(chunks[i + 1]) else None, i)
  {
    WordsCons(w, args);
    ParseWords(pre, [w] + args, post);
  }

  /** Only the first argument is a file name: further words change nothing. */
  lemma ExtraArgsIgnored(w: string, name: string, extra: seq<string>)
    ensures CommandOf([w, name] + extra) == CommandOf([w, name])
  {
    assert ([w, name] + extra)[0] == w && ([w, name] + extra)[1] == name;
  }

  /** The command a first word and its arguments ask for. */
  lemma CommandOfWords(w: string, args: seq<string>)
    ensures var c := CommandOf([w] + args);
            && (Upper(w) == "LIST" ==> c == List)
            && ((Upper(w) == "GET" || Upper(w) == "PUT") && args == [] ==> c == MissingName)
            && (Upper(w) == "GET" && args != [] ==> c == Get(args[0]))
            && (Upper(w) == "PUT" && args != [] ==> c == Put(args[0]))
            && (Upper(w) == "QUIT" ==> c == Quit)
            && (Upper(w) !in {"LIST", "GET", "PUT", "QUIT"} ==> c == Unknown)
  {
    var ws := [w] + args;
    assert ws[0] == w && |ws| == |args| + 1;
    if args != [] {
      assert ws[1] == args[0];
    }
  }

  /** The reply to each command word, in any case: GET and PUT use the
      first argument as the file name and ignore the rest, and only a PUT
      that has its data changes the directory. */
  lemma StepForWords(d: Root, w: string, args: seq<string>, data: Option<seq<Byte>>, i: nat)
    ensures var s := StepFor(d, CommandOf([w] + args), data, i);
            && (Upper(w) == "LIST" ==> s == Continue([Text(Listing(d))], d, i + 1))
            && ((Upper(w) == "GET" || Upper(w) == "PUT") && args == [] ==>
                  s == Continue([Text(MissingFilename)], d, i + 1))
            && (Upper(w) == "GET" && args != [] && args[0] !in d.entries && args[0] != "." ==>
                  s == Continue([Text(FileNotFound)], d, i + 1))
            && (Upper(w) == "GET" && args != [] && !IsDirectory(d, args[0]) && args[0] in d.entries ==>
                  s == Continue([Raw(d.entries[args[0]].content)], d, i + 1))
            && (Upper(w) == "GET" && args != [] && IsDirectory(d, args[0]) ==> s == Stop([], d, Crashed))
            && (Upper(w) == "PUT" && args != [] && data.Some? && !IsDirectory(d, args[0]) ==>
                  s == Continue([Text("READY"), Text("OK")], Stored(d, args[0], data.value), i + 2))
            && (Upper(w) == "PUT" && args != [] && data.Some? && IsDirectory(d, args[0]) ==>
                  s == Stop([Text("READY")], d, Crashed))
            && (Upper(w) == "QUIT" ==> s == Stop([Text("BYE")], d, QuitSent))
            && (Upper(w) !in {"LIST", "GET", "PUT", "QUIT"} ==>
                  s == Continue([Text(UnknownCommand)], d, i + 1))
  {
    CommandOfWords(w, args);
  }

  /** A step that writes a file keeps the listing exact; every other step
      leaves the directory as it was. */
  lemma StepWellListed(d: Root, chunks: seq<seq<Byte>>, decode: seq<Byte> -> Option<string>, i: nat)
    requires i < |chunks| && WellListed(d)
    ensures WellListed(StepAt(d, chunks, decode, i).root)
  {
    if chunks[i] != [] && decode(chunks[i]).Some? {
      StepForWellListed(d, ParseCommand(decode(chunks[i]).value),
                        if i + 1 < |chunks| then Some(chunks[i + 1]) else None, i);
    }
  }

  lemma StepForWellListed(d: Root, cmd: Command, data: Option<seq<Byte>>, i: nat)
    requires WellListed(d)
    ensures WellListed(StepFor(d, cmd, data, i).root)
  {
    if cmd.Put? && data.Some? {
      StoredSpec(d, cmd.name, data.value);
    }
  }

  /** A session keeps the listing of the directory exact. */
  lemma {:induction false} RunWellListed(d: Root, chunks: seq<seq<Byte>>, decode: seq<Byte> -> Option<string>, i: nat)
    requires i <= |chunks| && WellListed(d)
    ensures WellListed(Run(d, chunks, decode, i).root)
    decreases |chunks| - i
  {
    if i < |chunks| {
      StepWellListed(d, chunks, decode, i);
      var s := StepAt(d, chunks, decode, i);
      if s.Continue? {
        RunWellListed(s.root, chunks, decode, s.next);
      }
    }
  }

  /** Unless a pass is waiting for the data of a PUT, more reads after `i`
      do not change it. */
  lemma StepExtend(d: Root, chunks: seq<seq<Byte>>, more: seq<seq<Byte>>,
                   decode: seq<Byte> -> Option<string>, i: nat)
    requires i < |chunks| && StepAt(d, chunks, decode, i) != Stop([Text("READY")], d, Waiting)
    ensures StepAt(d, chunks + more, decode, i) == StepAt(d, chunks, decode, i)
  {
    var all := chunks + more;
    assert all[i] == chunks[i];
    if i + 1 < |chunks| {
      assert all[i + 1] == chunks[i + 1];
    } else if more != [] {
      assert all[i + 1] == more[0];
      if chunks[i] != [] && decode(chunks[i]).Some? {
        StepForData(d, ParseCommand(decode(chunks[i]).value), more[0], i);
      }
    } else {
      assert all == chunks;
    }
  }

  /** Once a session has ended, reads that arrive later are never consumed:
      a session that ends on QUIT, on the peer closing or on an exception
      is the same whatever follows. */
  lemma {:induction false} RunIgnoresLaterReads(d: Root, chunks: seq<seq<Byte>>, more: seq<seq<Byte>>,
                                                decode: seq<Byte> -> Option<string>, i: nat)
    requires i <= |chunks| && Run(d, chunks, decode, i).ending != Waiting
    ensures Run(d, chunks + more, decode, i) == Run(d, chunks, decode, i)
    decreases |chunks| - i
  {
    var s := StepAt(d, chunks, decode, i);
    StepExtend(d, chunks, more, decode, i);
    if s.Continue? {
      RunIgnoresLaterReads(s.root, chunks, more, decode, s.next);
    }
  }

  // ------------------------------------------------------------ the server

  class FtpServer {
    /** The entries of the root directory, by name. */
    var entries: map<string, Node>
    /** The order in which the root directory lists its entries. */
    var order: seq<string>

    function Dir(): Root
      reads this
    {
      Root(entries, order)
    }

    ghost predicate Valid()
      reads this
    {
      WellListed(Dir())
    }

    /** Lines 7-9: the server works on a root directory that exists. */
    constructor (d: Root)
      requires WellListed(d)
      ensures Dir() == d && Valid()
    {
      entries := d.entries;
      order := d.order;
    }

    /** Lines 51-53: write `data` to the file `name`. */
    method Put(name: string, data: seq<Byte>)
      requires Valid()
      modifies this
      ensures Valid() && Dir() == Stored(old(Dir()), name, data)
    {
      StoredSpec(Dir(), name, data);
      if name !in entries {
        order := order + [name];
      }
      entries := entries[name := File(data)];
    }

    /** Lines 17-64: one pass of the command loop at read `i`. */
    method Serve(chunks: seq<seq<Byte>>, decode: seq<Byte> -> Option<string>, i: nat) returns (step: Step)
      requires Valid() && i < |chunks|
      modifies this
      ensures Valid()
      ensures step == StepAt(old(Dir()), chunks, decode, i) && Dir() == step.root
    {
      var chunk := chunks[i];
      if chunk == [] {
        return Stop([], Dir(), PeerClosed);
      }
      var decoded := decode(chunk);
      if decoded.None? {
        return Stop([], Dir(), Crashed);
      }
      var parts := Words(Strip(decoded.value));
      if parts == [] {
        return Continue([], Dir(), i + 1);
      }
      var cmd := Upper(parts[0]);
      var response: string;
      if cmd == "LIST" {
        response := if order == [] then EmptyListing else Join(order, "\n");
      } else if cmd == "GET" {
        if |parts| < 2 {
          response := MissingFilename;
        } else if IsDirectory(Dir(), parts[1]) {
          return Stop([], Dir(), Crashed);
        } else if parts[1] in entries {
          return Continue([Raw(entries[parts[1]].content)], Dir(), i + 1);
        } else {
          response := FileNotFound;
        }
      } else if cmd == "PUT" {
        if |parts| < 2 {
          response := MissingFilename;
        } else {
          if i + 1 == |chunks| {
            return Stop([Text("READY")], Dir(), Waiting);
          }
          var data := chunks[i + 1];
          var name := parts[1];
          if IsDirectory(Dir(), name) {
            return Stop([Text("READY")], Dir(), Crashed);
          }
          Put(name, data);
          return Continue([Text("READY"), Text("OK")], Dir(), i + 2);
        }
      } else if cmd == "QUIT" {
        return Stop([Text("BYE")], Dir(), QuitSent);
      } else {
        response := UnknownCommand;
      }
      step := Continue([Text(response)], Dir(), i + 1);
    }

    /** Lines 11-64, `handle_client`: serve commands until the session
        ends or the reads run out. */
    method HandleClient(chunks: seq<seq<Byte>>, decode: seq<Byte> -> Option<string>)
      returns (replies: seq<Reply>, ending: Ending)
      requires Valid()
      modifies this
      ensures Valid()
      ensures Trace(replies, Dir(), ending) == Run(old(Dir()), chunks, decode, 0)
    {
      replies := [];
      ending := Waiting;
      var i := 0;
      while i < |chunks|
        invariant 0 <= i <= |chunks| && Valid()
        invariant Then(replies, Run(Dir(), chunks, decode, i)) == Run(old(Dir()), chunks, decode, 0)
        decreases |chunks| - i
      {
        ghost var t := Run(Dir(), chunks, decode, i);
        var step := Serve(chunks, decode, i);
        if step.Stop? {
          assert t == Trace(step.out, Dir(), step.ending);
          replies := replies + step.out;
          ending := step.ending;
          return;
        }
        ghost var rest := Run(Dir(), chunks, decode, step.next);
        assert t == Then(step.out, rest);
        AppendAssocSeq(replies, step.out, rest.replies);
        replies := replies + step.out;
        i := step.next;
      }
      assert replies + [] == replies;
    }
  }
}
