/** The in-memory copy of a configuration file and the calls of radconffile.h that read and
    change it. A list node is a position in `data`; -1 stands for a NULL node. */
module ConfFile {
  import opened ConfText
  import opened ConfLine
  import opened ConfList
  import opened ConfRoundTrip
  import opened Wrappers

  // ----- the header -----

  /** Lines of the text header, given without their "#" and their newline. */
  function HeaderLines(lines: seq<string>): (rs: seq<Record>)
    ensures |rs| == |lines|
    ensures forall i | 0 <= i < |rs| :: rs[i] == Comment("#" + lines[i] + "\n")
  {
    seq(|lines|, i requires 0 <= i < |lines| => Comment("#" + lines[i] + "\n"))
  }

  function Header(name: string, lines: seq<string>): (rs: seq<Record>)
    ensures |rs| == |lines| + 1 && rs[0].Comment?
  {
    [Comment("#  Filename: " + name + "\n")] + HeaderLines(lines)
  }

  /** The records radCfFlush writes: a file that does not begin with a comment gets a header. */
  function WithHeader(data: seq<Record>, name: string, lines: seq<string>): seq<Record> {
    if data != [] && data[0].Comment? then data else Header(name, lines) + data
  }

  /** No newline, and room for "#  Filename: " and a newline. */
  ghost predicate Plain(s: string) {
    NoneOf(s, NEWLINE) && |s| < MAX_LINE_LENGTH - 14
  }

  lemma {:induction false} HashLineSurvives(t: string)
    requires 2 <= |t| < MAX_LINE_LENGTH && t[0] == '#' && t[|t| - 1] == '\n' && NoneOf(t[..|t| - 1], NEWLINE)
    ensures Survives(Comment(t))
  {
    assert forall i | 0 <= i < |t| - 1 :: t[i] == t[..|t| - 1][i];
  }

  lemma {:induction false} HeaderLineSurvives(mark: string, s: string)
    requires Plain(s) && mark != "" && |mark| <= 13 && mark[0] == '#' && NoneOf(mark, NEWLINE)
    ensures Survives(Comment(mark + s + "\n"))
  {
    var t := mark + s + "\n";
    assert t[..|t| - 1] == mark + s;
    HashLineSurvives(t);
  }

  lemma {:induction false} HeaderSurvives(name: string, lines: seq<string>)
    requires Plain(name) && forall s | s in lines :: Plain(s)
    ensures AllSurvive(Header(name, lines))
  {
    hide Survives, Plain, NoneOf;
    var h := Header(name, lines);
    FilenameMark();
    HeaderLineSurvives("#  Filename: ", name);
    HashMark();
    forall i | 0 <= i < |h| ensures Survives(h[i]) {
      if 0 < i { HeaderLineSurvives("#", lines[i - 1]); }
    }
  }

  lemma {:induction false} FilenameMark()
    ensures NoneOf("#  Filename: ", NEWLINE)
  {
  }

  lemma {:induction false} HashMark()
    ensures NoneOf("#", NEWLINE)
  {
  }

  lemma {:induction false} HeaderIs(name: string, lines: seq<string>, was: seq<Record>)
    ensures var d := Header(name, lines) + was;
      && |d| == 1 + |lines| + |was| && d[0] == Comment("#  Filename: " + name + "\n")
      && (forall i | 0 <= i < |lines| :: d[1 + i] == Comment("#" + lines[i] + "\n"))
      && d[1 + |lines|..] == was
  {
    var first, rest := Comment("#  Filename: " + name + "\n"), HeaderLines(lines);
    InFront(first, rest, was);
    assert Header(name, lines) + was == [first] + rest + was;
    forall i | 0 <= i < |lines| ensures (Header(name, lines) + was)[1 + i] == Comment("#" + lines[i] + "\n") {
      assert ([first] + rest + was)[1 + i] == rest[i];
    }
  }

  lemma {:induction false} InFront(first: Record, rest: seq<Record>, was: seq<Record>)
    ensures var d := [first] + rest + was;
      && |d| == 1 + |rest| + |was| && d[0] == first && (forall i | 0 <= i < |rest| :: d[1 + i] == rest[i])
      && d[1 + |rest|..] == was
  {
  }

  lemma {:induction false} HeaderGrows(name: string, lines: seq<string>, i: nat, was: seq<Record>)
    requires i < |lines|
    ensures var data := Header(name, lines[..i]) + was;
      data[..i + 1] + [Comment("#" + lines[i] + "\n")] + data[i + 1..] == Header(name, lines[..i + 1]) + was
  {
    var data, r := Header(name, lines[..i]) + was, Comment("#" + lines[i] + "\n");
    assert data[..i + 1] == Header(name, lines[..i]) && data[i + 1..] == was;
    assert HeaderLines(lines[..i + 1]) == HeaderLines(lines[..i]) + [r];
    assert Header(name, lines[..i + 1]) == Header(name, lines[..i]) + [r];
  }

  // ----- searching -----

  /** An instance of None is a NULL pointer: any instance will do. */
  predicate Matches(r: Record, id: string, inst: Option<string>) {
    r.Data? && r.entry.id == id && (inst.Some? ==> r.entry.inst == inst.value)
  }

  /** The first match from a position on, or the end. */
  function Search(data: seq<Record>, id: string, inst: Option<string>, from: nat): (p: nat)
    requires from <= |data|
    ensures from <= p <= |data| && (p < |data| ==> Matches(data[p], id, inst))
    ensures forall i | from <= i < p :: !Matches(data[i], id, inst)
    decreases |data| - from
  {
    if from == |data| || Matches(data[from], id, inst) then from else Search(data, id, inst, from + 1)
  }

  function Lookup(data: seq<Record>, id: string, inst: Option<string>): Option<string> {
    var p := Search(data, id, inst, 0);
    if p == |data| then None else Some(data[p].entry.value)
  }

  // ----- changing -----

  function Remark(comment: Option<string>, otherwise: string): string {
    if comment.None? then otherwise else "# " + comment.value
  }

  /** What radCfPutEntry stores for the match `p`, or as a new record at the end. */
  function PutRecord(data: seq<Record>, p: nat, id: string, inst: Option<string>, value: string,
                     comment: Option<string>): Entry
    requires p < |data| ==> data[p].Data?
  {
    if p < |data| then data[p].entry.(value := value, comment := Remark(comment, data[p].entry.comment))
    else Entry(id, if inst.None? then "" else inst.value, value, Remark(comment, ""))
  }

  function Put(data: seq<Record>, id: string, inst: Option<string>, value: string,
               comment: Option<string>): seq<Record> {
    var p := Search(data, id, inst, 0);
    var r := Data(PutRecord(data, p, id, inst, value, comment));
    if p < |data| then data[p := r] else data + [r]
  }

  class ConfFile {
    const name: string
    const header: seq<string>
    var data: seq<Record>
    var lastSearchNode: int

    ghost predicate Valid()
      reads this
    {
      -1 <= lastSearchNode < |data|
    }

    /** radCfOpen of a file that holds `text`. */
    constructor (name: string, header: seq<string>, text: string)
      requires ReadFile(text).Contents?
      ensures Valid() && this.name == name && this.header == header
      ensures Contents(data) == ReadFile(text) && lastSearchNode == -1
    {
      var read := ReadLines(text);
      this.name, this.header := name, header;
      data, lastSearchNode := read.records, -1;
    }

    /** radCfFindEntryNodeAfter; -1 when there is none. */
    method FindEntryNodeAfter(id: string, inst: Option<string>, thisOne: int) returns (hdr: int)
      requires -1 <= thisOne < |data|
      ensures var p := Search(data, id, inst, thisOne + 1); hdr == if p == |data| then -1 else p
      ensures hdr != -1 ==>
        && thisOne < hdr < |data| && data[hdr].Data? && data[hdr].entry.id == id
        && (inst.Some? ==> data[hdr].entry.inst == inst.value)
      ensures forall i | thisOne < i < (if hdr == -1 then |data| else hdr) && data[i].Data? && data[i].entry.id == id ::
        inst.Some? && data[i].entry.inst != inst.value
    {
      hdr := thisOne + 1;
      while hdr < |data|
        invariant thisOne < hdr <= |data|
        invariant Search(data, id, inst, thisOne + 1) == Search(data, id, inst, hdr)
      {
        if data[hdr].Data? {
          if data[hdr].entry.id == id && (inst == None || data[hdr].entry.inst == inst.value) {
            return;
          }
        }
        hdr := hdr + 1;
      }
      hdr := -1;
    }

    /** radCfGetEntry; None is ERROR. */
    method GetEntry(id: string, inst: Option<string>) returns (value: Option<string>)
      ensures value == Lookup(data, id, inst)
      ensures value.None? ==> forall i | 0 <= i < |data| && data[i].Data? && data[i].entry.id == id ::
        inst.Some? && data[i].entry.inst != inst.value
      ensures value.Some? ==> exists p | 0 <= p < |data| ::
        && data[p].Data? && data[p].entry.id == id && (inst.Some? ==> data[p].entry.inst == inst.value)
        && data[p].entry.value == value.value
        && forall i | 0 <= i < p && data[i].Data? && data[i].entry.id == id ::
             inst.Some? && data[i].entry.inst != inst.value
    {
      var hdr := FindEntryNodeAfter(id, inst, -1);
      value := if hdr == -1 then None else Some(data[hdr].entry.value);
    }

    /** radCfGetNextEntry: the next entry of an identifier, behind the one found last. */
    method GetNextEntry(id: string) returns (found: Option<Entry>)
      requires Valid()
      modifies this`lastSearchNode
      ensures Valid()
      ensures var p := Search(data, id, None, old(lastSearchNode) + 1);
        if p == |data| then found == None && lastSearchNode == old(lastSearchNode)
        else found == Some(data[p].entry) && lastSearchNode == p
      ensures found.Some? ==>
        && old(lastSearchNode) < lastSearchNode && data[lastSearchNode] == Data(found.value) && found.value.id == id
      ensures forall i | old(lastSearchNode) < i < (if found.Some? then lastSearchNode else |data|) && data[i].Data? ::
        data[i].entry.id != id
    {
      var hdr := FindEntryNodeAfter(id, None, lastSearchNode);
      if hdr == -1 {
        found := None;
      } else {
        lastSearchNode := hdr;
        found := Some(data[hdr].entry);
      }
    }

    /** radCfGetFirstEntry. */
    method GetFirstEntry(id: string) returns (found: Option<Entry>)
      modifies this`lastSearchNode
      ensures Valid()
      ensures var p := Search(data, id, None, 0);
        if p == |data| then found == None && lastSearchNode == -1
        else found == Some(data[p].entry) && lastSearchNode == p
      ensures found.Some? ==>
        && 0 <= lastSearchNode && data[lastSearchNode] == Data(found.value) && found.value.id == id
      ensures forall i | 0 <= i < (if found.Some? then lastSearchNode else |data|) && data[i].Data? ::
        data[i].entry.id != id
    {
      lastSearchNode := -1;
      found := GetNextEntry(id);
    }

    /** radCfPutEntry: the first entry with the identifier, and the instance if one is given, gets
        the value, and the comment if one is given; if there is none, a new entry is added at the
        end, or, without room for it, nothing changes. */
    method PutEntry(room: bool, id: string, inst: Option<string>, value: string, comment: Option<string>)
      returns (ok: bool)
      requires Valid()
      modifies this`data
      ensures Valid()
      ensures ok <==> room || Search(old(data), id, inst, 0) < |old(data)|
      ensures data == if ok then Put(old(data), id, inst, value, comment) else old(data)
      ensures ok && |data| == |old(data)| ==> exists p | 0 <= p < |data| ::
        && old(data)[p].Data? && old(data)[p].entry.id == id
        && (inst.Some? ==> old(data)[p].entry.inst == inst.value)
        && (forall i | 0 <= i < p && old(data)[i].Data? && old(data)[i].entry.id == id ::
              inst.Some? && old(data)[i].entry.inst != inst.value)
        && var was := old(data)[p].entry;
        var remark := if comment.None? then was.comment else "# " + comment.value;
        data == old(data)[p := Data(Entry(was.id, was.inst, value, remark))]
      ensures ok && |data| != |old(data)| ==>
        && (forall i | 0 <= i < |old(data)| && old(data)[i].Data? && old(data)[i].entry.id == id ::
              inst.Some? && old(data)[i].entry.inst != inst.value)
        && data == old(data) + [Data(Entry(id, if inst.None? then "" else inst.value, value,
                                           if comment.None? then "" else "# " + comment.value))]
    {
      var hdr := FindEntryNodeAfter(id, inst, -1);
      if hdr == -1 {
        if !room {
          return false;
        }
        var entry := Entry(id, "", value, "");
        if inst.Some? {
          entry := entry.(inst := inst.value);
        }
        if comment.Some? {
          entry := entry.(comment := "# " + comment.value);
        }
        data := data + [Data(entry)];
        return true;
      }
      var entry := data[hdr].entry.(value := value);
      if comment.Some? {
        entry := entry.(comment := "# " + comment.value);
      }
      data := data[hdr := Data(entry)];
      return true;
    }

    /** radCfFlush: the text written to the file. A file that does not begin with a comment gets
        the header in front, one line of file name and one of each header text. */
    method Flush() returns (text: string)
      requires Valid()
      modifies this`data, this`lastSearchNode
      ensures old(data) != [] && old(data)[0].Comment? ==> data == old(data)
      ensures old(data) == [] || old(data)[0].Data? ==>
        && |data| == 1 + |header| + |old(data)| && data[0] == Comment("#  Filename: " + name + "\n")
        && (forall i | 0 <= i < |header| :: data[1 + i] == Comment("#" + header[i] + "\n"))
        && data[1 + |header|..] == old(data)
      ensures Valid() && data == WithHeader(old(data), name, header) && text == PrintAll(data)
      ensures lastSearchNode == -1 == old(lastSearchNode) ||
        (0 <= old(lastSearchNode) && lastSearchNode == old(lastSearchNode) + |data| - |old(data)|)
    {
      hide Header, PrintAll;
      ghost var was := data;
      HeaderIs(name, header, was);
      if data == [] || data[0].Data? {
        InsertHeader();
      }
      text := PrintRecords(data);
    }

    /** radCfInsertTextHdr. */
    method InsertHeader()
      requires Valid()
      modifies this`data, this`lastSearchNode
      ensures Valid() && data == Header(name, header) + old(data)
      ensures lastSearchNode == if old(lastSearchNode) == -1 then -1 else old(lastSearchNode) + |header| + 1
    {
      ghost var was := data;
      data := [Comment("#  Filename: " + name + "\n")] + data;
      var i := 0;
      assert data == Header(name, header[..0]) + was;
      while i < |header|
        invariant i <= |header| && lastSearchNode == old(lastSearchNode)
        invariant data == Header(name, header[..i]) + was
      {
        HeaderGrows(name, header, i, was);
        data := data[..i + 1] + [Comment("#" + header[i] + "\n")] + data[i + 1..];
        i := i + 1;
      }
      assert header[..i] == header;
      if lastSearchNode != -1 {
        lastSearchNode := lastSearchNode + |header| + 1;
      }
    }
  }

  /** The writing loop of radCfFlush. */
  method PrintRecords(data: seq<Record>) returns (text: string)
    ensures text == PrintAll(data)
  {
    hide Print;
    text := "";
    var hdr := 0;
    assert data[0..] == data;
    while hdr < |data|
      invariant hdr <= |data| && PrintAll(data) == text + PrintAll(data[hdr..])
    {
      assert data[hdr..][1..] == data[hdr + 1..];
      var line := PrintRecord(data[hdr]);
      assert text + PrintAll(data[hdr..]) == text + line + PrintAll(data[hdr + 1..]);
      text := text + line;
      hdr := hdr + 1;
    }
  }

  /** One record of radCfFlush. */
  method PrintRecord(r: Record) returns (line: string)
    ensures line == Print(r)
    ensures r.Comment? ==> line == r.text
    ensures r.Data? ==>
      line == r.entry.id + (if r.entry.inst == "" then "" else "[" + r.entry.inst + "]") + "=" + r.entry.value
              + (if r.entry.comment == "" then "" else "\t\t" + r.entry.comment) + "\n"
  {
    match r {
      case Comment(t) =>
        line := t;
      case Data(e) =>
        if e.inst != "" {
          line := e.id + "[" + e.inst + "]" + "=" + e.value;
        } else {
          line := e.id + "=" + e.value;
        }
        ghost var start := line;
        if e.comment != "" {
          line := line + "\t\t" + e.comment;
        }
        line := line + "\n";
        assert line == start + Tail(e.comment);
    }
  }

  // ----- reading a text -----

  /** The reading loop of radCfOpen. */
  method ReadLines(text: string) returns (c: Contents)
    ensures c == ReadFile(text)
  {
    hide ParseLine, LineLength;
    var rest, records := text, [];
    while rest != ""
      invariant ReadFile(text) == Append(records, ReadFile(rest))
      decreases |rest|
    {
      var n := LineLength(rest);
      var p := ReadLine(rest[..n]);
      if p.Overrun? {
        return Undefined;
      }
      if p.Kept? {
        records := records + [p.record];
      }
      rest := rest[n..];
    }
    c := Contents(records);
  }

  /** One line of that loop: a comment, a blank line or an entry. */
  method ReadLine(line: string) returns (p: Parsed)
    ensures p == ParseLine(line)
  {
    var i := 0;
    while i < |line| && line[i] in SPACES
      invariant i <= |line| && forall j | 0 <= j < i :: line[j] in SPACES
    {
      i := i + 1;
    }
    LeadingIs(line, SPACES, i);
    var s := line[i..];
    if s != "" && s[0] == '#' {
      p := Kept(Comment(s));
    } else if s == "" {
      p := Kept(Comment(line));
    } else {
      p := ReadEntry(s);
    }
  }

  /** strchr; the length of the string stands for NULL. */
  method StrChr(s: string, c: char) returns (i: nat)
    ensures i == Until(s, {c})
  {
    i := 0;
    while i < |s| && s[i] != c
      invariant i <= |s| && forall j | 0 <= j < i :: s[j] !in {c}
    {
      i := i + 1;
    }
    UntilIs(s, {c}, i);
  }

  /** The identifier token: where its instance begins and ends, and whether the fields hold them. */
  method ReadName(token: string) returns (p: Parsed)
    ensures p == ParseName(token)
  {
    hide Until;
    var instPtrStart := StrChr(token, '[');
    if instPtrStart < |token| {
      instPtrStart := instPtrStart + 1;
      var instPtrEnd := StrChr(token, ']');
      if instPtrEnd == |token| || instPtrEnd - instPtrStart > MAX_INSTANCE_LENGTH {
        return Skipped;
      }
      if instPtrStart - 1 > MAX_ID_LENGTH {
        return Skipped;
      }
      // what strncpy is given: a negative length, or a length without room for the terminator
      if instPtrEnd < instPtrStart || instPtrEnd - instPtrStart == MAX_INSTANCE_LENGTH
        || instPtrStart - 1 == MAX_ID_LENGTH {
        return Overrun;
      }
      p := Kept(Data(Entry(token[..instPtrStart - 1], token[instPtrStart..instPtrEnd], "", "")));
    } else {
      if |token| > MAX_ID_LENGTH {
        return Skipped;
      }
      if |token| == MAX_ID_LENGTH {
        return Overrun;
      }
      p := Kept(Data(Entry(token, "", "", "")));
    }
  }

  /** The entry branch: three strtok calls, the instance, the comment. */
  method ReadEntry(s: string) returns (p: Parsed)
    ensures p == ParseEntry(s)
  {
    hide StrTok, Leading, Until, ParseName;
    var t := StrTok(s, NAME_ENDS);
    if t.NoToken? {
      return Skipped;
    }
    p := ReadName(t.text);
    if !p.Kept? {
      return;
    }
    var entry := p.record.entry;
    var v := StrTok(t.rest, VALUE_ENDS);
    entry := entry.(value := Text(v));
    var c := Text(StrTok(Rest(v), NEWLINE));
    var i := StrChr(c, '#');
    if |c[i..]| >= MAX_COMMENT_LENGTH {
      return Overrun;
    }
    p := Kept(Data(entry.(comment := c[i..])));
  }
}
