/** The requirements explainer of lab_00/01_streams_read_requirements.py:
    read the lines of a requirements file, split each `name==version` line
    on `==`, and append one numbered entry per line to the output file.

    The input file is its text; the output file, opened for appending, is a
    class whose content grows with each write. */
module Requirements {
  import opened PyText
  import opened Wrappers
  import opened Seqs

  // ------------------------------------------------------------ readlines

  /** The length of the first line of `s`, its newline included. */
  function LineLength(s: string): (n: nat)
    requires s != []
    ensures 1 <= n <= |s|
    ensures forall k :: 0 <= k < n - 1 ==> s[k] != '\n'
    ensures s[n - 1] == '\n' || n == |s|
    decreases |s|
  {
    if s[0] == '\n' || |s| == 1 then 1 else 1 + LineLength(s[1..])
  }

  /** Line 6: `readlines()`, each line keeping its newline. */
  function ReadLines(text: string): (lines: seq<string>)
    ensures forall k :: 0 <= k < |lines| ==> lines[k] != []
    ensures forall k :: 0 <= k < |lines| - 1 ==> lines[k][|lines[k]| - 1] == '\n'
    ensures forall k, m :: 0 <= k < |lines| && 0 <= m < |lines[k]| - 1 ==> lines[k][m] != '\n'
    decreases |text|
  {
    if text == [] then []
    else
      var n := LineLength(text);
      [text[..n]] + ReadLines(text[n..])
  }

  /** The lines, one after the other. */
  function Concat(lines: seq<string>): string {
    if lines == [] then "" else lines[0] + Concat(lines[1..])
  }

  /** The lines together are the whole text. */
  lemma {:induction false} ReadLinesConcat(text: string)
    ensures Concat(ReadLines(text)) == text
    decreases |text|
  {
    if text != [] {
      var n := LineLength(text);
      var head, tail := text[..n], text[n..];
      ReadLinesConcat(tail);
      ConcatCons(head, ReadLines(tail));
      SliceJoin(text, n);
      calc {
        Concat(ReadLines(text));
        Concat([head] + ReadLines(tail));
        head + Concat(ReadLines(tail));
        head + tail;
      }
    }
  }

  lemma ConcatCons(line: string, lines: seq<string>)
    ensures Concat([line] + lines) == line + Concat(lines)
  {
    assert ([line] + lines)[1..] == lines;
  }

  // ---------------------------------------------------------------- entries

  const Separator: string := "=="

  /** Lines 13-17: the entry of the line at index `i`, or nothing when
      `split("==")[1]` raises `IndexError`. */
  function Entry(i: nat, line: string): Option<string> {
    var parts := SplitOn(line, Separator);
    if |parts| < 2 then None
    else Some(NatToString(i + 1) + " .\t" + parts[0] + "\n\t" + parts[1])
  }

  /** A line has an entry exactly when it contains `==`. */
  lemma EntryIff(i: nat, line: string)
    ensures Entry(i, line).Some? <==> Contains(line, Separator)
  {
    ContainsIff(line, Separator);
    var f := Find(line, Separator);
    if f != -1 {
      assert OccursAt(line, Separator, f);
    } else {
      assert forall j :: !OccursAt(line, Separator, j);
    }
  }

  /** In `name + "==" + rest`, no "==" starts inside `name` when `name`
      holds no "==" and does not end with "=": the split happens right after
      `name`. */
  lemma NameFirst(name: string, rest: string)
    requires !Contains(name, Separator) && !HasSuffix(name, "=")
    ensures forall j :: 0 <= j < |name| ==> !OccursAt(name + Separator + rest, Separator, j)
  {
    ContainsIff(name, Separator);
    var s := name + Separator + rest;
    forall j | 0 <= j < |name| ensures !OccursAt(s, Separator, j) {
      if j + 2 <= |name| {
        assert s[j..j + 2] == name[j..j + 2];
        assert !OccursAt(name, Separator, j);
      } else {
        assert s[j..j + 2] == [name[j], '='];
        assert name[|name| - 1..] == [name[j]];
      }
    }
  }

  /** The entry of `name==version`: its number, then the name, then the
      version on an indented line of its own.  The name may hold single "="
      characters anywhere but at its end, and the version anywhere, as long
      as neither holds "==". */
  lemma EntryOfPair(i: nat, name: string, version: string)
    requires !Contains(name, Separator) && !HasSuffix(name, "=") && !Contains(version, Separator)
    ensures Entry(i, name + Separator + version)
            == Some(NatToString(i + 1) + " .\t" + name + "\n\t" + version)
  {
    NameFirst(name, version);
    SplitOnFirst(name, Separator, version);
    SplitOnFree(version, Separator);
  }

  /** The version is the text between the first and the second `==`, not
      the whole remainder: whatever follows a second `==` is dropped. */
  lemma VersionNotRemainder(i: nat, name: string, version: string, rest: string)
    requires !Contains(name, Separator) && !HasSuffix(name, "=")
    requires !Contains(version, Separator) && !HasSuffix(version, "=")
    ensures Entry(i, name + Separator + version + Separator + rest) == Entry(i, name + Separator + version)
  {
    var line := name + Separator + version + Separator + rest;
    var tail := version + Separator + rest;
    assert line == name + Separator + tail;
    NameFirst(name, tail);
    SplitOnFirst(name, Separator, tail);
    NameFirst(version, rest);
    SplitOnFirst(version, Separator, rest);
    EntryOfParts(i, line, name, version, SplitOn(rest, Separator));
    EntryOfPair(i, name, version);
  }

  /** The entry of a line is made of its first two pieces. */
  lemma EntryOfParts(i: nat, line: string, p0: string, p1: string, more: seq<string>)
    requires SplitOn(line, Separator) == [p0] + ([p1] + more)
    ensures Entry(i, line) == Some(NatToString(i + 1) + " .\t" + p0 + "\n\t" + p1)
  {
  }

  /** The format adds no separator of its own: an entry ends where the
      version ends, so consecutive entries are apart only when the version
      kept the newline of its line. */
  lemma EntryEnds(i: nat, name: string, version: string)
    requires !Contains(name, Separator) && !HasSuffix(name, "=") && !Contains(version, Separator)
    requires version != []
    ensures Entry(i, name + Separator + version).Some?
    ensures var e := Entry(i, name + Separator + version).value;
            e[|e| - 1] == version[|version| - 1]
  {
    EntryOfPair(i, name, version);
  }

  /** An entry opens with the line's number, counted from 1, and " .\t". */
  lemma EntryNumber(i: nat, line: string)
    requires Entry(i, line).Some?
    ensures var e := Entry(i, line).value;
            var num := NatToString(i + 1);
            && |num| + 3 <= |e| && e[..|num|] == num && ParseNat(e[..|num|]) == i + 1
            && e[|num|..|num| + 3] == " .\t"
  {
    var e := Entry(i, line).value;
    var num := NatToString(i + 1);
    assert e[..|num|] == num;
    ParseNatToString(i + 1);
  }

  // ------------------------------------------------------------ the loop

  /** What the loop writes from line `i` on, and the index of the line that
      raises, if one does. */
  datatype Outcome = Outcome(written: string, failedAt: Option<nat>)

  /** Lines 12-19 from line `i` on. */
  function Explained(lines: seq<string>, i: nat): Outcome
    requires i <= |lines|
    decreases |lines| - i
  {
    if i == |lines| then Outcome("", None)
    else match Entry(i, lines[i])
      case None => Outcome("", Some(i))
      case Some(e) =>
        var rest := Explained(lines, i + 1);
        Outcome(e + rest.written, rest.failedAt)
  }

  /** The text of the entry of line `i`, empty when the line has none. */
  function EntryText(i: nat, line: string): string {
    if Entry(i, line).Some? then Entry(i, line).value else ""
  }

  /** The entries of lines `i` up to `j`, in order. */
  function Entries(lines: seq<string>, i: nat, j: nat): seq<string>
    requires i <= j <= |lines|
    decreases j - i
  {
    if i == j then [] else [EntryText(i, lines[i])] + Entries(lines, i + 1, j)
  }

  /** The loop stops at the first line without `==`, and only there; every
      line before it has been written out, one entry after the other, and
      nothing else has. */
  lemma {:induction false} ExplainedFailure(lines: seq<string>, i: nat)
    requires i <= |lines|
    ensures Explained(lines, i).failedAt.None? <==>
              forall k :: i <= k < |lines| ==> Entry(k, lines[k]).Some?
    ensures Explained(lines, i).failedAt.Some? ==>
              var j := Explained(lines, i).failedAt.value;
              && i <= j < |lines| && Entry(j, lines[j]).None?
              && forall k :: i <= k < j ==> Entry(k, lines[k]).Some?
    ensures var r := Explained(lines, i);
            var j := if r.failedAt.Some? then r.failedAt.value else |lines|;
            i <= j <= |lines| && r.written == Concat(Entries(lines, i, j))
    decreases |lines| - i
  {
    ExplainedStops(lines, i);
    ExplainedWritten(lines, i);
  }

  lemma {:induction false} ExplainedStops(lines: seq<string>, i: nat)
    requires i <= |lines|
    ensures Explained(lines, i).failedAt.None? <==>
              forall k :: i <= k < |lines| ==> Entry(k, lines[k]).Some?
    ensures Explained(lines, i).failedAt.Some? ==>
              var j := Explained(lines, i).failedAt.value;
              && i <= j < |lines| && Entry(j, lines[j]).None?
              && forall k :: i <= k < j ==> Entry(k, lines[k]).Some?
    decreases |lines| - i
  {
    if i < |lines| && Entry(i, lines[i]).Some? {
      ExplainedStops(lines, i + 1);
    }
  }

  lemma {:induction false} ExplainedWritten(lines: seq<string>, i: nat)
    requires i <= |lines|
    ensures var r := Explained(lines, i);
            var j := if r.failedAt.Some? then r.failedAt.value else |lines|;
            i <= j <= |lines| && r.written == Concat(Entries(lines, i, j))
    decreases |lines| - i
  {
    if i < |lines| {
      var x := Entry(i, lines[i]);
      if x.Some? {
        ExplainedWritten(lines, i + 1);
        var rest := Explained(lines, i + 1);
        var j := if rest.failedAt.Some? then rest.failedAt.value else |lines|;
        assert Explained(lines, i) == Outcome(x.value + rest.written, rest.failedAt);
        assert Entries(lines, i, j) == [x.value] + Entries(lines, i + 1, j);
      }
    }
  }

  /** The output file, opened for appending. */
  class OutputFile {
    var content: string

    constructor (content: string)
      ensures this.content == content
    {
      this.content := content;
    }

    method Write(s: string)
      modifies this
      ensures content == old(content) + s
    {
      content := content + s;
    }
  }

  /** Lines 3-22, `main`: explain every line of `input` into `output`,
      stopping at the first line that raises. */
  method Explain(input: string, output: OutputFile) returns (failedAt: Option<nat>)
    modifies output
    ensures var r := Explained(ReadLines(input), 0);
            output.content == old(output.content) + r.written && failedAt == r.failedAt
  {
    var lines := ReadLines(input);
    ghost var start := output.content;
    ghost var done: string := "";
    var i := 0;
    while i < |lines|
      invariant 0 <= i <= |lines|
      invariant output.content == start + done
      invariant Explained(lines, 0) == Outcome(done + Explained(lines, i).written, Explained(lines, i).failedAt)
      decreases |lines| - i
    {
      var entry := Entry(i, lines[i]);
      if entry.None? {
        assert done + [] == done;
        return Some(i);
      }
      ghost var rest := Explained(lines, i + 1);
      AppendAssocSeq(done, entry.value, rest.written);
      AppendAssocSeq(start, done, entry.value);
      output.Write(entry.value);
      done := done + entry.value;
      i := i + 1;
    }
    assert done + [] == done;
    failedAt := None;
  }
}
