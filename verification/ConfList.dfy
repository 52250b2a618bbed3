/** Lists of records: exactly which lists come back when the text radCfFlush writes for them is
    read. A list is a word, and reading the text of one record gives none, one or two records;
    a list that comes back is a fixed point of that. */
module ConfList {
  import opened ConfText
  import opened ConfLine
  import opened ConfRoundTrip

  // ----- lines -----

  /** A line that fgets delivers by itself, whatever comes after it. */
  ghost predicate FullLine(line: string) {
    line != "" && OneLine(line) && (EndsLine(line) || |line| == MAX_LINE_LENGTH - 1)
  }

  lemma {:induction false} LineThenRest(line: string, rest: string)
    requires FullLine(line)
    ensures ReadFile(line + rest) == Prepend(ParseLine(line), ReadFile(rest))
  {
    hide ParseLine;
    var text := line + rest;
    FullLength(line, rest);
    assert text[..|line|] == line && text[|line|..] == rest;
  }

  lemma {:induction false} FullLength(line: string, rest: string)
    requires FullLine(line)
    ensures LineLength(line + rest) == |line|
  {
    var text := line + rest;
    if EndsLine(line) {
      UntilIs(text, NEWLINE, |line| - 1);
    } else {
      assert Until(text, NEWLINE) >= |line|;
    }
  }

  /** A last line need not be full. */
  lemma {:induction false} LastLine(line: string)
    requires line != "" && OneLine(line)
    ensures ReadFile(line) == Prepend(ParseLine(line), Contents([]))
  {
    hide ParseLine;
    LastLength(line);
    assert line[..|line|] == line && line[|line|..] == "";
  }

  lemma {:induction false} LastLength(line: string)
    requires line != "" && OneLine(line)
    ensures LineLength(line) == |line|
  {
    var n := Until(line, NEWLINE);
    assert n < |line| ==> line[n] == '\n';
  }

  lemma {:induction false} LineIsOne(text: string)
    requires text != ""
    ensures var line := text[..LineLength(text)]; OneLine(line) && (FullLine(line) || line == text)
  {
  }

  /** The records `q` in front of what else is read. */
  function Append(q: seq<Record>, c: Contents): Contents {
    if c.Undefined? then Undefined else Contents(q + c.records)
  }

  lemma {:induction false} PrependIs(p: Parsed, c: Contents)
    ensures Prepend(p, c) == if p.Overrun? then Undefined else Append(if p.Kept? then [p.record] else [], c)
  {
    if c.Contents? { assert [] + c.records == c.records; }
  }

  lemma {:induction false} AppendTwice(a: seq<Record>, b: seq<Record>, c: Contents)
    ensures Append(a, Append(b, c)) == Append(a + b, c)
  {
    if c.Contents? { assert a + (b + c.records) == a + b + c.records; }
  }

  /** A file is read line by line: a record is added, a line passed over leaves no trace, and
      after an overrun nothing is known. */
  lemma {:induction false} ReadLineByLine(line: string, rest: string)
    requires FullLine(line)
    ensures match ParseLine(line)
      case Overrun => ReadFile(line + rest) == Undefined
      case Skipped => ReadFile(line + rest) == ReadFile(rest)
      case Kept(r) => ReadFile(rest).Contents? ==> ReadFile(line + rest) == Contents([r] + ReadFile(rest).records)
  {
    hide ReadFile, ParseLine, FullLine;
    LineThenRest(line, rest);
  }

  // ----- records -----

  /** A bare identifier that was read with the newline behind it. */
  ghost predicate Bare(e: Entry) {
    && e.inst == e.value == e.comment == ""
    && FullLine(e.id) && EndsLine(e.id) && NoneOf(e.id, {'=', ' ', '\t', '['}) && |e.id| < MAX_ID_LENGTH
  }

  /** Comment records that are read: one line that begins with # or is blank. */
  ghost predicate WellFormedComment(t: string) {
    t != "" && OneLine(t) && (t[0] == '#' || forall i | 0 <= i < |t| :: t[i] in SPACES)
  }

  /** What can be said of every record that was read. */
  ghost predicate Readable(r: Record) {
    match r
    case Comment(t) => WellFormedComment(t)
    case Data(e) => Bare(e) || (Clean(e) && NoneOf(e.id, NEWLINE) && AtMostTwoOver(e))
  }

  /** Read from one line, an entry is written in at most two characters more than that holds. */
  ghost predicate AtMostTwoOver(e: Entry) {
    |Print(Data(e))| <= MAX_LINE_LENGTH + (if e.comment == "" then 0 else 1)
  }

  /** A blank comment that only the end of the file can end. */
  ghost predicate BlankEnd(r: Record) {
    r.Comment? && r.text != "" && r.text[0] != '#' && !FullLine(r.text)
  }

  lemma {:induction false} CommentAsKept(line: string, t: string)
    requires OneLine(line) && line != "" && ParseLine(line) == Kept(Comment(t))
    ensures WellFormedComment(t) && (t[0] != '#' ==> t == line)
  {
    var n := Leading(line, SPACES);
    assert line[n..] != "" ==> t == line[n..];
    assert forall i | 0 <= i < |line[n..]| :: line[n..][i] == line[n + i];
  }

  lemma {:induction false} EntryIsReadable(line: string, e: Entry)
    requires OneLine(line) && ParseLine(line) == Kept(Data(e))
    ensures Readable(Data(e))
  {
    hide ParseLine, NameRead, EndsWith, CleanName, CleanRest, Name, Print;
    var k, n := EntryAsRead(line, e);
    NameReadSize(line, e, k, n);
    if NoneOf(e.id, NEWLINE) {
      LineOf(e);
      NameLength(e);
      ValueOrNothing(e);
    } else {
      BareName(e, line, k, n);
    }
  }

  lemma {:induction false} NameReadSize(line: string, e: Entry, k: nat, m: nat)
    requires OneLine(line) && NameRead(line, e, k, m)
    ensures |Name(e)| <= m && k + m <= |line| < MAX_LINE_LENGTH
  {
  }

  lemma {:induction false} NameLength(e: Entry)
    requires Clean(e)
    ensures |Name(e)| < MAX_ID_LENGTH + MAX_INSTANCE_LENGTH + 2
    ensures e.comment != "" ==> e.comment[0] == '#'
  {
  }

  /** An identifier read with a newline in it was all there was on its line. */
  lemma {:induction false} BareName(e: Entry, line: string, k: nat, m: nat)
    requires Clean(e) && !NoneOf(e.id, NEWLINE) && OneLine(line) && NameRead(line, e, k, m)
    requires e.value != "" ==> k + m + 1 + |e.value| + Behind(e.comment) <= |line|
    ensures Bare(e)
  {
    assert forall i | 0 <= i < |e.id| :: e.id[i] == line[k + i];
  }

  /** Every record that was read is readable, and a blank comment that is not a full line is the
      last one. */
  lemma {:induction false} AllReadable(text: string, rs: seq<Record>)
    requires ReadFile(text) == Contents(rs)
    ensures forall r | r in rs :: Readable(r)
    ensures forall i | 0 <= i < |rs| - 1 :: !BlankEnd(rs[i])
    decreases |text|
  {
    hide ParseLine, Readable, LineLength, FullLine, OneLine;
    if text != "" {
      var n := LineLength(text);
      var line, rest := text[..n], ReadFile(text[n..]);
      LineIsOne(text);
      AllReadable(text[n..], rest.records);
      if ParseLine(line).Kept? {
        var r := ParseLine(line).record;
        assert rs == [r] + rest.records;
        KeptIsReadable(line, r);
        if BlankEnd(r) { assert line == text && text[n..] == ""; }
        assert forall i | 0 < i < |rs| :: rs[i] == rest.records[i - 1];
      }
    }
  }

  lemma {:induction false} KeptIsReadable(line: string, r: Record)
    requires line != "" && OneLine(line) && ParseLine(line) == Kept(r)
    ensures Readable(r) && (BlankEnd(r) ==> r.text == line)
  {
    match r
    case Comment(t) => CommentAsKept(line, t);
    case Data(e) => EntryIsReadable(line, e);
  }

  // ----- records that multiply for ever -----

  /** Comments that are full lines, and bare identifiers: the text of each reads as at least one
      record of this kind again. */
  ghost predicate Persistent(r: Record) {
    match r
    case Comment(t) => WellFormedComment(t) && FullLine(t)
    case Data(e) => Bare(e)
  }

  /** A well-formed comment is read as it is. */
  lemma {:induction false} CommentIsRead(t: string)
    requires WellFormedComment(t)
    ensures ParseLine(t) == Kept(Comment(t))
  {
    if t[0] == '#' { HashIsComment(t); } else { LeadingIs(t, SPACES, |t|); }
  }

  /** The line of a bare identifier. */
  lemma {:induction false} BareLine(id: string)
    requires Bare(Entry(id, "", "", ""))
    ensures ParseLine(id).Kept? && Persistent(ParseLine(id).record)
    ensures id[0] in NEWLINE ==> ParseLine(id).record.Comment?
  {
    hide StrTok, Until, ParseName, FromHash;
    var lead := Leading(id, SPACES);
    var s := id[lead..];
    if s != "" && s[0] != '#' {
      assert forall i | 0 <= i < |s| :: s[i] == id[lead + i];
      OnlyToken(s);
      BareNameIsKept(s);
      NothingLeft();
    }
  }

  /** A line without delimiters is one token. */
  lemma {:induction false} OnlyToken(s: string)
    requires s != "" && NoneOf(s, NAME_ENDS)
    ensures StrTok(s, NAME_ENDS) == Token(s, "")
  {
    LeadingIs(s, NAME_ENDS, 0);
    assert s[0..] == s;
    UntilIs(s, NAME_ENDS, |s|);
  }

  lemma {:induction false} NothingLeft()
    ensures StrTok("", VALUE_ENDS) == NoToken == StrTok("", NEWLINE) && FromHash("") == ""
  {
  }

  lemma {:induction false} BareNameIsKept(id: string)
    requires NoneOf(id, {'['}) && |id| < MAX_ID_LENGTH
    ensures ParseName(id) == Kept(Data(Entry(id, "", "", "")))
  {
    UntilIs(id, {'['}, |id|);
  }

  /** A line without anything before the equals sign: the newline becomes the identifier. */
  lemma {:induction false} BareEquals(s: string, nl: string)
    requires |s| == 2 && s[0] == '=' && s[1] == '\n' && |nl| == 1 && nl[0] == '\n'
    ensures ParseLine(s) == Kept(Data(Entry(nl, "", "", ""))) && FullLine(s) && Persistent(Data(Entry(nl, "", "", "")))
  {
    hide ParseName, StrTok, Until, Leading, FromHash;
    BareToken(s, nl);
    NothingLeft();
    BareNameIsKept(nl);
  }

  lemma {:induction false} BareToken(s: string, nl: string)
    requires |s| == 2 && s[0] == '=' && s[1] == '\n' && |nl| == 1 && nl[0] == '\n'
    ensures StrTok(s, NAME_ENDS) == Token(nl, "") && Leading(s, SPACES) == 0 && s[0..] == s
  {
    LeadingIs(s, SPACES, 0);
    LeadingIs(s, NAME_ENDS, 1);
    assert s[1..] == nl;
    UntilIs(nl, NAME_ENDS, 1);
  }

  /** A bare identifier reads as two records: what its own line gives, and the newline behind
      the equals sign as an identifier. */
  lemma {:induction false} BareReads(e: Entry, rest: string) returns (q: seq<Record>)
    requires Bare(e)
    ensures ReadFile(Print(Data(e)) + rest) == Append(q, ReadFile(rest))
    ensures |q| == 2 && Persistent(q[0]) && Persistent(q[1]) && (q[1] == Data(e) ==> q[0].Comment?)
  {
    hide ParseLine, ReadFile, FullLine, OneLine, NoneOf, Persistent;
    var nl, eq := "\n", "=\n";
    BareLine(e.id);
    BareEquals(eq, nl);
    q := [ParseLine(e.id).record, Data(Entry(nl, "", "", ""))];
    assert Print(Data(e)) + rest == e.id + (eq + rest);
    LineThenRest(e.id, eq + rest);
    LineThenRest(eq, rest);
    PrependIs(ParseLine(eq), ReadFile(rest));
    PrependIs(ParseLine(e.id), ReadFile(eq + rest));
    AppendTwice([q[0]], [q[1]], ReadFile(rest));
  }

  lemma {:induction false} PersistentReads(r: Record, rest: string) returns (q: seq<Record>)
    requires Persistent(r)
    ensures ReadFile(Print(r) + rest) == Append(q, ReadFile(rest))
    ensures q != [] && forall x | x in q :: Persistent(x)
  {
    hide ParseLine, ReadFile;
    match r {
      case Comment(t) =>
        q := [r];
        CommentIsRead(t);
        LineThenRest(t, rest);
        PrependIs(ParseLine(t), ReadFile(rest));
      case Data(e) =>
        q := BareReads(e, rest);
    }
  }

  /** Once such records are read ahead of where they were written, there is no end to them. */
  lemma {:induction false} NoGrowth(u: seq<Record>, q: seq<Record>)
    requires q != [] && forall x | x in q :: Persistent(x)
    ensures Contents(u) != Append(q, ReadFile(PrintAll(u)))
    decreases |u|
  {
    hide ReadFile, Persistent, Print;
    if Contents(u) == Append(q, ReadFile(PrintAll(u))) {
      var rest := PrintAll(u[1..]);
      assert u[0] == q[0];
      var g := PersistentReads(u[0], rest);
      AppendTwice(q, g, ReadFile(rest));
      var q' := q[1..] + g;
      assert u[1..] == q' + ReadFile(rest).records;
      NoGrowth(u[1..], q');
    }
  }

  // ----- what one entry reads as -----

  /** A rest of at most two characters. */
  lemma {:induction false} ShortLine(s: string)
    requires 1 <= |s| <= 2 && OneLine(s) && EndsLine(s)
    ensures ParseLine(s).Kept? ==> Persistent(ParseLine(s).record)
    ensures |s| == 1 ==> ParseLine(s) == Kept(Comment(s))
  {
    hide ParseName, FromHash;
    if forall i | 0 <= i < |s| :: s[i] in SPACES {
      CommentIsRead(s);
    } else if s[0] == '=' {
      BareEquals(s, "\n");
    } else if s[0] == '[' {
      NoInstance(s);
    } else {
      BareLine(s);
    }
  }

  lemma {:induction false} NoInstance(s: string)
    requires |s| == 2 && s[0] == '[' && s[1] == '\n'
    ensures ParseLine(s) == Skipped
  {
    hide FromHash;
    LeadingIs(s, SPACES, 0);
    assert s[0..] == s;
    OnlyToken(s);
    UntilIs(s, {'['}, 0);
    UntilIs(s, {']'}, 2);
  }

  /** The record a line is kept as, if it is. */
  function Records(p: Parsed): seq<Record> {
    if p.Kept? then [p.record] else []
  }

  /** What may come of the text of entry e: the entry itself only when it is well-formed, and
      behind it only what multiplies for ever. */
  ghost predicate ReadsAs(e: Entry, q: seq<Record>) {
    && |q| <= 2 && (q == [Data(e)] ==> WellFormed(e))
    && (|q| == 2 ==> Persistent(q[1]) && (q[1] == Data(e) ==> q[0].Comment?))
  }

  lemma {:induction false} CleanIsWellFormed(e: Entry)
    requires Clean(e) && NoneOf(e.id, NEWLINE) && |Print(Data(e))| < MAX_LINE_LENGTH
    requires Name(e) != "" && Name(e)[0] !in SPACES && Name(e)[0] != '#'
    ensures WellFormed(e)
  {
  }

  lemma {:induction false} WellFormedIsClean(e: Entry)
    requires WellFormed(e)
    ensures Clean(e) && NoneOf(e.id, NEWLINE) && |Print(Data(e))| < MAX_LINE_LENGTH
  {
  }

  /** The line of an entry is one line, unless it is too long for one fgets. */
  lemma {:induction false} PrintIsOneLine(e: Entry)
    requires Clean(e) && NoneOf(e.id, NEWLINE)
    ensures var line := Print(Data(e));
      && EndsLine(line) && (forall i | 0 <= i < |line| - 1 :: line[i] != '\n')
      && (|line| < MAX_LINE_LENGTH ==> FullLine(line))
  {
    hide Clean, Print;
    LineOf(e);
    var line := Print(Data(e));
    assert forall i | 0 <= i < |line| - 1 :: line[..|line| - 1][i] == line[i];
  }

  lemma {:induction false} FittingEntryReads(e: Entry, rest: string) returns (q: seq<Record>)
    requires Clean(e) && NoneOf(e.id, NEWLINE) && |Print(Data(e))| < MAX_LINE_LENGTH
    ensures ReadFile(Print(Data(e)) + rest) in {Append(q, ReadFile(rest)), Undefined}
    ensures ReadsAs(e, q)
  {
    hide ReadFile, ParseLine, Print, Clean, Name, FullLine, WellFormed;
    var line := Print(Data(e));
    PrintIsOneLine(e);
    LineThenRest(line, rest);
    PrependIs(ParseLine(line), ReadFile(rest));
    q := Records(ParseLine(line));
    if ParseLine(line) == Kept(Data(e)) {
      NameBegins(e);
      CleanIsWellFormed(e);
    }
  }

  lemma {:induction false} LastChar(line: string, n: nat, comment: string)
    requires n <= |line| && comment != ""
    ensures EndsWith(line[..n], comment) ==> |comment| <= n && line[n - |comment|] == comment[0]
  {
    if EndsWith(line[..n], comment) {
      assert line[..n][n - |comment|..][0] == line[n - |comment|];
    }
  }

  /** With its last two characters cut off, a line does not end in its comment. */
  lemma {:induction false} CutShort(e: Entry, line: string, n: nat)
    requires Clean(e) && NoneOf(e.id, NEWLINE) && line == Print(Data(e)) && n == |line| - 2 && e.comment != ""
    ensures !EndsWith(line[..n], e.comment)
  {
    hide Name, CleanName;
    LineOf(e);
    LastChar(line, n, e.comment);
  }

  lemma {:induction false} FirstPart(e: Entry, line: string)
    requires Clean(e) && NoneOf(e.id, NEWLINE) && line == Print(Data(e)) && |line| == MAX_LINE_LENGTH + 1
    requires e.comment != ""
    ensures FullLine(line[..|line| - 2]) && ParseLine(line[..|line| - 2]) != Kept(Data(e))
  {
    hide ParseLine, Print, Clean, EndsWith, NameRead;
    var first := line[..|line| - 2];
    PrintIsOneLine(e);
    assert forall i | 0 <= i < |first| :: first[i] == line[i];
    CutShort(e, line, |line| - 2);
    if ParseLine(first) == Kept(Data(e)) {
      var k, n := EntryAsRead(first, e);
    }
  }

  lemma {:induction false} LongEntryReads(e: Entry, rest: string) returns (q: seq<Record>)
    requires Clean(e) && NoneOf(e.id, NEWLINE) && AtMostTwoOver(e) && |Print(Data(e))| >= MAX_LINE_LENGTH
    ensures ReadFile(Print(Data(e)) + rest) in {Append(q, ReadFile(rest)), Undefined}
    ensures ReadsAs(e, q)
  {
    hide ReadFile, ParseLine, Print, Clean, Name, WellFormed, Bare, WellFormedComment;
    var line, n := Print(Data(e)), MAX_LINE_LENGTH - 1;
    var a, b := line[..n], line[n..];
    PrintIsOneLine(e);
    assert OneLine(a) && OneLine(b) by {
      assert forall i | 0 <= i < |a| :: a[i] == line[i];
      assert forall i | 0 <= i < |b| :: b[i] == line[n + i];
    }
    assert line + rest == a + (b + rest);
    LineThenRest(a, b + rest);
    LineThenRest(b, rest);
    PrependIs(ParseLine(a), ReadFile(b + rest));
    PrependIs(ParseLine(b), ReadFile(rest));
    q := Records(ParseLine(a)) + Records(ParseLine(b));
    AppendTwice(Records(ParseLine(a)), Records(ParseLine(b)), ReadFile(rest));
    ShortLine(b);
    NotPersistent(e);
    if |b| == 2 {
      assert a == line[..|line| - 2];
      FirstPart(e, line);
    }
    if ParseLine(b).Kept? {
      assert q[|q| - 1] == ParseLine(b).record != Data(e);
    } else {
      assert q == Records(ParseLine(a));
    }
  }

  lemma {:induction false} NotPersistent(e: Entry)
    requires NoneOf(e.id, NEWLINE)
    ensures !Persistent(Data(e))
  {
  }

  lemma {:induction false} EntryReads(e: Entry, rest: string) returns (q: seq<Record>)
    requires Readable(Data(e))
    ensures ReadFile(Print(Data(e)) + rest) in {Append(q, ReadFile(rest)), Undefined}
    ensures ReadsAs(e, q)
  {
    hide ReadFile, Print, Bare, Clean, Persistent, WellFormed;
    if Bare(e) {
      q := BareReads(e, rest);
    } else if |Print(Data(e))| < MAX_LINE_LENGTH {
      q := FittingEntryReads(e, rest);
    } else {
      q := LongEntryReads(e, rest);
    }
  }

  // ----- lists that come back -----

  /** A text that begins with # reads as a comment first. */
  lemma {:induction false} HashFirst(text: string)
    requires text != "" && text[0] == '#'
    ensures ReadFile(text).Contents? ==> ReadFile(text).records != [] && ReadFile(text).records[0].Comment?
  {
    HashIsComment(text[..LineLength(text)]);
  }

  /** A comment that is not a full line, with more text behind it. */
  lemma {:induction false} LooseComment(t: string, rest: string)
    requires WellFormedComment(t) && t[0] == '#' && !FullLine(t) && rest != ""
    ensures var c := ReadFile(t + rest); c.Contents? ==> c.records != [] && c.records[0] != Comment(t)
  {
    var text := t + rest;
    HashIsComment(text[..LineLength(text)]);
    assert LineLength(text) > |t| by { assert Until(text, NEWLINE) >= |t|; }
  }

  lemma {:induction false} EmptyFile()
    ensures ReadFile("") == Contents([])
  {
  }

  /** What reads as u with some entries in front was not written for u. */
  lemma {:induction false} NoLag(u: seq<Record>, p: seq<Record>)
    requires p != [] && forall r | r in p :: r.Data?
    requires (forall r | r in u :: Readable(r)) && forall i | 0 <= i < |u| - 1 :: !BlankEnd(u[i])
    ensures ReadFile(PrintAll(u)) != Contents(p + u)
    decreases |u|
  {
    hide ReadFile, Readable, BlankEnd, Print, Bare, Clean, Persistent, WellFormed, FullLine;
    EmptyFile();
    if u != [] && ReadFile(PrintAll(u)) == Contents(p + u) {
      var y, v, rest := u[0], u[1..], PrintAll(u[1..]);
      assert Readable(y) && (p + u)[0] == p[0];
      if y.Comment? {
        NoLagComment(y.text, u, p);
      } else {
        var q := EntryReads(y.entry, rest);
        assert p + u == q + ReadFile(rest).records;
        assert (p + u)[|p|] == y;
        var p' := (p + [y])[|q|..];
        assert ReadFile(rest).records == (p + u)[|q|..] == p' + v;
        assert |q| == 2 ==> q[0] == (p + u)[0] && q[1] == (p + u)[1];
        assert forall i | 0 <= i < |v| - 1 :: v[i] == u[i + 1];
        NoLag(v, p');
      }
    }
  }

  lemma {:induction false} NoLagComment(t: string, u: seq<Record>, p: seq<Record>)
    requires p != [] && p[0].Data? && u != [] && u[0] == Comment(t) && Readable(Comment(t))
    requires forall i | 0 <= i < |u| - 1 :: !BlankEnd(u[i])
    ensures ReadFile(PrintAll(u)) != Contents(p + u)
  {
    hide ReadFile, ParseLine, FullLine;
    var rest := PrintAll(u[1..]);
    assert (p + u)[0] == p[0] && |p + u| > |u|;
    if t[0] == '#' {
      HashFirst(PrintAll(u));
    } else {
      CommentIsRead(t);
      if FullLine(t) {
        LineThenRest(t, rest);
        PrependIs(ParseLine(t), ReadFile(rest));
        assert ReadFile(PrintAll(u)).Contents? ==> ReadFile(PrintAll(u)).records[0] == Comment(t);
      } else {
        LastLine(t);
        assert |u| == 1 && PrintAll(u) == t + "" == t;
      }
    }
  }

  /** A record that comes back when it stands alone, or last in its file. */
  ghost predicate ComesBack(r: Record) {
    match r
    case Comment(t) => WellFormedComment(t)
    case Data(e) => WellFormed(e)
  }

  /** A record that comes back wherever it stands: a comment is then a full line. */
  ghost predicate Survives(r: Record) {
    ComesBack(r) && (r.Comment? ==> FullLine(r.text))
  }

  ghost predicate AllSurvive(rs: seq<Record>) {
    forall r | r in rs :: Survives(r)
  }

  /** All records but the last survive, and the last one comes back. */
  ghost predicate Returns(rs: seq<Record>) {
    forall i | 0 <= i < |rs| :: ComesBack(rs[i]) && (i + 1 < |rs| ==> Survives(rs[i]))
  }

  lemma {:induction false} SurvivorIsRead(r: Record)
    requires Survives(r)
    ensures FullLine(Print(r)) && ParseLine(Print(r)) == Kept(r)
  {
    match r
    case Comment(t) =>
      CommentIsRead(t);
    case Data(e) =>
      WellFormedIsRead(e);
      WellFormedIsClean(e);
      PrintIsOneLine(e);
  }

  /** Reading what was written gives the same records in the same order, and whatever was
      appended to the text behind them. */
  lemma {:induction false} SurvivorsComeBack(rs: seq<Record>, more: string)
    requires AllSurvive(rs)
    ensures ReadFile(PrintAll(rs) + more) == Append(rs, ReadFile(more))
  {
    hide ReadFile, ParseLine, Survives, FullLine, Print;
    if rs == [] {
      assert PrintAll(rs) + more == more;
      PrependIs(Skipped, ReadFile(more));
    } else {
      var r, tail := rs[0], rs[1..];
      var text := PrintAll(tail) + more;
      SurvivorsComeBack(tail, more);
      SurvivorIsRead(r);
      LineThenRest(Print(r), text);
      PrependIs(Kept(r), ReadFile(text));
      AppendTwice([r], tail, ReadFile(more));
      assert PrintAll(rs) + more == Print(r) + text && [r] + tail == rs;
    }
  }

  lemma {:induction false} LastComesBack(r: Record)
    requires ComesBack(r)
    ensures ReadFile(Print(r)) == Contents([r])
  {
    hide ReadFile, ParseLine;
    match r {
      case Comment(t) =>
        CommentIsRead(t);
        LastLine(t);
      case Data(e) =>
        SurvivorIsRead(r);
        LastLine(Print(r));
    }
    PrependIs(Kept(r), Contents([]));
  }

  lemma {:induction false} ReturnsComeBack(rs: seq<Record>)
    requires Returns(rs)
    ensures ReadFile(PrintAll(rs)) == Contents(rs)
  {
    hide ReadFile, ComesBack, Survives, Print;
    if rs == [] {
      EmptyFile();
    } else {
      var n := |rs| - 1;
      assert AllSurvive(rs[..n]) by { assert forall r | r in rs[..n] :: exists i :: 0 <= i < n && rs[i] == r; }
      SurvivorsComeBack(rs[..n], Print(rs[n]));
      PrintLast(rs[..n], rs[n]);
      LastComesBack(rs[n]);
      assert rs == rs[..n] + [rs[n]];
    }
  }

  lemma {:induction false} PrintLast(rs: seq<Record>, r: Record)
    ensures PrintAll(rs + [r]) == PrintAll(rs) + Print(r)
  {
    hide Print;
    if rs == [] {
      assert [] + [r] == [r] && [r][1..] == [];
    } else {
      assert (rs + [r])[1..] == rs[1..] + [r];
      PrintLast(rs[1..], r);
    }
  }

  /** The first record of a list that comes back: it survives, and so do the others come back,
      or it is a comment at the end. */
  lemma {:induction false} FirstReturns(rs: seq<Record>)
    requires rs != [] && ReadFile(PrintAll(rs)) == Contents(rs)
    ensures ComesBack(rs[0])
    ensures |rs| > 1 ==> Survives(rs[0]) && ReadFile(PrintAll(rs[1..])) == Contents(rs[1..])
  {
    hide ReadFile, Readable, BlankEnd, Print, ComesBack, Survives, PrintAll;
    AllReadable(PrintAll(rs), rs);
    assert Readable(rs[0]);
    if rs[0].Comment? {
      FirstComment(rs[0].text, rs);
    } else {
      FirstEntry(rs[0].entry, rs, rs[1..]);
    }
  }

  lemma {:induction false} FirstEntry(e: Entry, rs: seq<Record>, u: seq<Record>)
    requires rs == [Data(e)] + u && ReadFile(PrintAll(rs)) == Contents(rs) && Readable(Data(e))
    requires (forall r | r in u :: Readable(r)) && forall i | 0 <= i < |u| - 1 :: !BlankEnd(u[i])
    ensures ComesBack(Data(e)) && Survives(Data(e)) && ReadFile(PrintAll(u)) == Contents(u)
  {
    hide ReadFile, Readable, BlankEnd, Print, Persistent, WellFormed;
    assert rs[1..] == u;
    var q := EntryReads(e, PrintAll(u));
    var more := ReadFile(PrintAll(u)).records;
    assert [Data(e)] + u == q + more;
    if |q| == 0 {
      assert more == [Data(e)] + u;
      NoLag(u, [Data(e)]);
    } else {
      assert q[0] == (q + more)[0] == Data(e);
      assert u == (q + more)[1..] == q[1..] + more;
      if |q| == 2 { NoGrowth(u, q[1..]); }
    }
  }

  lemma {:induction false} FirstComment(t: string, rs: seq<Record>)
    requires rs != [] && rs[0] == Comment(t) && ReadFile(PrintAll(rs)) == Contents(rs)
    requires (forall r | r in rs :: Readable(r)) && (|rs| > 1 ==> !BlankEnd(rs[0]))
    ensures ComesBack(rs[0])
    ensures |rs| > 1 ==> Survives(rs[0]) && ReadFile(PrintAll(rs[1..])) == Contents(rs[1..])
  {
    hide ReadFile, ParseLine, FullLine;
    var rest := PrintAll(rs[1..]);
    assert Readable(rs[0]);
    if |rs| > 1 {
      PrintsSomething(rs[1]);
      assert rest != "" by { assert rs[1] in rs; }
      if FullLine(t) {
        CommentIsRead(t);
        LineThenRest(t, rest);
        PrependIs(ParseLine(t), ReadFile(rest));
        assert ([rs[0]] + ReadFile(rest).records)[1..] == ReadFile(rest).records;
      } else {
        LooseComment(t, rest);
      }
    }
  }

  lemma {:induction false} PrintsSomething(r: Record)
    ensures Readable(r) ==> Print(r) != ""
  {
  }

  /** Flushing a list of records and opening the file again gives back the same ids, instances,
      values, comments and order exactly when all of them survive, save that the last may be a
      comment without its newline. */
  lemma {:induction false} FileRoundTrip(rs: seq<Record>)
    ensures ReadFile(PrintAll(rs)) == Contents(rs) <==> Returns(rs)
  {
    hide ReadFile, ComesBack, Survives, PrintAll;
    if Returns(rs) { ReturnsComeBack(rs); }
    if ReadFile(PrintAll(rs)) == Contents(rs) { ComeBackReturns(rs); }
  }

  lemma {:induction false} ComeBackReturns(rs: seq<Record>)
    requires ReadFile(PrintAll(rs)) == Contents(rs)
    ensures Returns(rs)
  {
    hide ReadFile, ComesBack, Survives, PrintAll;
    if rs != [] {
      FirstReturns(rs);
      if |rs| > 1 { ComeBackReturns(rs[1..]); }
      assert forall i | 0 < i < |rs| :: rs[i] == rs[1..][i - 1];
    }
  }

  lemma {:induction false} PrintOne(r: Record)
    ensures PrintAll([r]) == Print(r) && PrintAll([]) == ""
  {
    assert [r][1..] == [] && Print(r) + "" == Print(r);
  }

  /** Whatever text follows, the record comes back in front of what that text holds. */
  ghost predicate ComesBackInAnyFile(r: Record) {
    forall more | ReadFile(more).Contents? :: ReadFile(Print(r) + more) == Contents([r] + ReadFile(more).records)
  }

  /** What a record must be like to come back from the end of a file, and from any place. */
  lemma {:induction false} RecordRoundTrip(r: Record)
    ensures ReadFile(Print(r)) == Contents([r]) <==> ComesBack(r)
    ensures ComesBackInAnyFile(r) <==> Survives(r)
  {
    hide ReadFile, ParseLine, Print, WellFormed, WellFormedComment, FullLine;
    PrintOne(r);
    FileRoundTrip([r]);
    if Survives(r) {
      SurvivorIsRead(r);
      forall more | ReadFile(more).Contents?
        ensures ReadFile(Print(r) + more) == Contents([r] + ReadFile(more).records)
      {
        LineThenRest(Print(r), more);
        PrependIs(Kept(r), ReadFile(more));
      }
    }
    if ComesBackInAnyFile(r) {
      assert Print(r) + "" == Print(r);
      EmptyFile();
      assert ReadFile(Print(r) + "") == Contents([r]);
      if r.Comment? { CommentBeforeHash(r); }
    }
  }

  /** A comment that is not a full line is lost in front of a comment. */
  lemma {:induction false} CommentBeforeHash(r: Record)
    requires r.Comment? && ComesBack(r) && ComesBackInAnyFile(r)
    ensures Survives(r)
  {
    hide ReadFile, FullLine;
    var hash := Comment("#");
    LastComesBack(hash);
    PrintOne(hash);
    assert ReadFile(Print(r) + Print(hash)) == Contents([r, hash]);
    assert PrintAll([r, hash]) == Print(r) + Print(hash) by { assert [r, hash][1..] == [hash]; }
    FileRoundTrip([r, hash]);
    assert Returns([r, hash]);
  }

  /** The same for an entry: wherever it stands, it comes back exactly when it is well-formed. */
  lemma {:induction false} EntryRoundTrip(e: Entry)
    ensures ReadFile(Print(Data(e))) == Contents([Data(e)]) <==> WellFormed(e)
    ensures ComesBackInAnyFile(Data(e)) <==> WellFormed(e)
  {
    hide ReadFile, Print, WellFormed;
    RecordRoundTrip(Data(e));
  }

  /** And for a comment: at the end of a file it is one line that begins with # or is blank;
      elsewhere the line must end in a newline or fill what fgets reads. */
  lemma {:induction false} CommentRoundTrip(t: string)
    ensures ReadFile(t) == Contents([Comment(t)]) <==> WellFormedComment(t)
    ensures ComesBackInAnyFile(Comment(t))
       <==> WellFormedComment(t) && (EndsLine(t) || |t| == MAX_LINE_LENGTH - 1)
  {
    hide ReadFile;
    RecordRoundTrip(Comment(t));
  }

  /** An entry whose line does not fit in one fgets never comes back. */
  lemma {:induction false} LongLineIsLost(e: Entry)
    requires |Print(Data(e))| >= MAX_LINE_LENGTH
    ensures ReadFile(Print(Data(e))) != Contents([Data(e)])
  {
    hide ReadFile, Print;
    EntryRoundTrip(e);
  }

  /** An identifier with a newline never comes back. */
  lemma {:induction false} NewlineIsLost(e: Entry)
    requires !NoneOf(e.id, NEWLINE)
    ensures ReadFile(Print(Data(e))) != Contents([Data(e)])
  {
    hide ReadFile, Print;
    EntryRoundTrip(e);
  }

  /** What was read from any file comes back from the next one exactly when no comment but the
      last lacks its newline in a line shorter than fgets reads, no identifier was read with the
      newline behind it, every name may begin a line, and every entry still fits one line. */
  lemma {:induction false} ReadAgain(text: string, rs: seq<Record>)
    requires ReadFile(text) == Contents(rs)
    ensures ReadFile(PrintAll(rs)) == Contents(rs) <==> forall i | 0 <= i < |rs| :: MayBeFlushed(rs[i], i + 1 == |rs|)
  {
    hide ReadFile, PrintAll, Readable, ComesBack, Survives, MayBeFlushed;
    AllReadable(text, rs);
    FileRoundTrip(rs);
    forall i | 0 <= i < |rs|
      ensures MayBeFlushed(rs[i], i + 1 == |rs|) <==> ComesBack(rs[i]) && (i + 1 < |rs| ==> Survives(rs[i]))
    {
      assert rs[i] in rs;
      ReadMayBeFlushed(rs[i], i + 1 == |rs|);
    }
  }

  ghost predicate MayBeFlushed(r: Record, last: bool) {
    match r
    case Comment(t) => last || EndsLine(t) || |t| == MAX_LINE_LENGTH - 1
    case Data(e) =>
      && NoneOf(e.id, NEWLINE) && Name(e) != "" && Name(e)[0] !in SPACES && Name(e)[0] != '#'
      && |Print(Data(e))| < MAX_LINE_LENGTH
  }

  lemma {:induction false} ReadMayBeFlushed(r: Record, last: bool)
    requires Readable(r)
    ensures MayBeFlushed(r, last) <==> ComesBack(r) && (!last ==> Survives(r))
  {
    hide Print;
    if r.Data? {
      if MayBeFlushed(r, last) { CleanIsWellFormed(r.entry); }
      if ComesBack(r) { WellFormedIsClean(r.entry); }
    }
  }
}
