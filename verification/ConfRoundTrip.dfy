/** Whole files: what radCfOpen makes of a text, what radCfFlush writes, what can be said of an
    entry that was read from a line, and when an entry's own line is read as that entry. */
module ConfRoundTrip {
  import opened ConfText
  import opened ConfLine
  import opened Wrappers

  /** The records of a text, or nothing known after a field overran its array. */
  datatype Contents = Undefined | Contents(records: seq<Record>)

  function ReadFile(text: string): Contents
    decreases |text|
  {
    if text == "" then Contents([])
    else
      var n := LineLength(text);
      Prepend(ParseLine(text[..n]), ReadFile(text[n..]))
  }

  function Prepend(p: Parsed, rest: Contents): Contents {
    if p.Overrun? || rest.Undefined? then Undefined
    else if p.Skipped? then rest
    else Contents([p.record] + rest.records)
  }

  function PrintAll(rs: seq<Record>): string {
    if rs == [] then "" else Print(rs[0]) + PrintAll(rs[1..])
  }

  /** One line as fgets delivers it: a newline at most at the end. */
  ghost predicate OneLine(line: string) {
    |line| < MAX_LINE_LENGTH && forall i | 0 <= i < |line| - 1 :: line[i] != '\n'
  }

  // ----- whatever is read obeys these rules -----

  lemma {:induction false} TokenAt(s: string, d: set<char>)
    requires StrTok(s, d).Token?
    ensures var t, k := StrTok(s, d), Leading(s, d);
      && t.text != "" && NoneOf(t.text, d) && k + |t.text| <= |s| && s[k..k + |t.text|] == t.text
      && t.rest == if k + |t.text| < |s| then s[k + |t.text| + 1..] else ""
  {
    hide Leading, Until;
    var k := Leading(s, d);
    var u := s[k..];
    var n := Until(u, d);
    assert u[..n] == s[k..k + n];
    assert n < |u| ==> u[n + 1..] == s[k + n + 1..];
    assert u[0] == s[k];
  }

  ghost predicate CleanName(id: string, inst: string) {
    && NoneOf(id, {'=', ' ', '\t', '['}) && NoneOf(inst, {'=', ' ', '\t', '\n', ']'})
      && (inst != "" ==> NoneOf(id, {']', '\n'}))
    && |id| < MAX_ID_LENGTH && |inst| < MAX_INSTANCE_LENGTH
    && (NoneOf(id, NEWLINE) || (inst == "" && id[|id| - 1] == '\n'))
  }

  /** A token that holds a newline at most at its end. */
  lemma {:induction false} NameIsCleanAsRead(t: string)
    requires NoneOf(t, NAME_ENDS) && t != "" && (forall i | 0 <= i < |t| - 1 :: t[i] != '\n') && ParseName(t).Kept?
    ensures var e := ParseName(t).record.entry;
      && CleanName(e.id, e.inst) && |Name(e)| <= |t| && (Name(e) == "" ==> 2 <= |t|)
      && (e.id != "" ==> e.id[0] == t[0])
      && (!NoneOf(e.id, NEWLINE) ==> e.id == t)
  {
  }

  predicate EndsWith(s: string, c: string) {
    |c| <= |s| && s[|s| - |c|..] == c
  }

  lemma {:induction false} EndsWithTail(s: string, n: nat, c: string)
    requires n <= |s| && EndsWith(s[n..], c)
    ensures EndsWith(s, c)
  {
    assert s[n..][|s| - n - |c|..] == s[|s| - |c|..];
  }

  predicate EndsLine(s: string) {
    s != "" && s[|s| - 1] == '\n'
  }

  /** What the comment takes up, with the character before it. */
  function Behind(comment: string): nat {
    if comment == "" then 0 else 1 + |comment|
  }

  ghost predicate CleanRest(value: string, comment: string) {
    && NoneOf(value, VALUE_ENDS) && NoneOf(comment, NEWLINE) && (comment != "" ==> comment[0] == '#')
    && (value == "" ==> comment == "")
  }

  /** The third strtok of a line takes all of it but a newline at the end. */
  lemma {:induction false} RestOfLine(r: string)
    requires forall i | 0 <= i < |r| - 1 :: r[i] != '\n'
    ensures Text(StrTok(r, NEWLINE)) == r[..|r| - One(EndsLine(r))] && NoneOf(Text(StrTok(r, NEWLINE)), NEWLINE)
  {
    var n := |r| - One(EndsLine(r));
    if n == 0 {
      NoTokenLeft(r, NEWLINE);
    } else {
      LeadingIs(r, NEWLINE, 0);
      assert r[0..] == r;
      UntilIs(r, NEWLINE, n);
    }
  }

  /** A comment found in r; nothing of it was left out but a newline at the end. */
  lemma {:induction false} CommentAsRead(r: string)
    requires forall i | 0 <= i < |r| - 1 :: r[i] != '\n'
    ensures var c := FromHash(Text(StrTok(r, NEWLINE)));
      && NoneOf(c, NEWLINE) && (c != "" ==> c[0] == '#') && |c| + One(EndsLine(r)) <= |r|
      && (c != "" && !EndsLine(r) ==> EndsWith(r, c))
  {
    hide EndsWith, StrTok, FromHash, NoneOf;
    RestOfLine(r);
    var t := Text(StrTok(r, NEWLINE));
    HashAtEnd(t);
    assert !EndsLine(r) ==> t == r;
  }

  lemma {:induction false} HashAtEnd(t: string)
    ensures var c := FromHash(t);
      |c| <= |t| && EndsWith(t, c) && (NoneOf(t, NEWLINE) ==> NoneOf(c, NEWLINE)) && (c != "" ==> c[0] == '#')
  {
  }

  /** Value and comment found in r, and the room they take there. */
  lemma {:induction false} RestAsRead(r: string)
    requires forall i | 0 <= i < |r| - 1 :: r[i] != '\n'
    ensures var v := StrTok(r, VALUE_ENDS); var c := FromHash(Text(StrTok(Rest(v), NEWLINE)));
      && CleanRest(Text(v), c)
      && (v.Token? ==> |v.text| + Behind(c) + One(EndsLine(r)) <= |r|)
      && (c != "" && !EndsLine(r) ==> EndsWith(r, c))
  {
    hide StrTok, Until, Leading, FromHash, EndsWith;
    var v := StrTok(r, VALUE_ENDS);
    if v.NoToken? {
      CommentAsRead("");
    } else {
      TokenAt(r, VALUE_ENDS);
      var n := Leading(r, VALUE_ENDS) + |v.text|;
      BehindToken(r, n, v.rest);
      CommentAsRead(v.rest);
    }
  }

  /** The rest of a line behind position n. */
  lemma {:induction false} BehindToken(r: string, n: nat, rest: string)
    requires n <= |r| && rest == if n < |r| then r[n + 1..] else ""
    requires forall i | 0 <= i < |r| - 1 :: r[i] != '\n'
    ensures forall i | 0 <= i < |rest| - 1 :: rest[i] != '\n'
    ensures rest != "" ==> EndsLine(rest) == EndsLine(r) && |rest| == |r| - n - 1
    ensures forall c | c != "" && EndsWith(rest, c) :: EndsWith(r, c)
  {
    forall c | c != "" && EndsWith(rest, c) ensures EndsWith(r, c) {
      EndsWithTail(r, n + 1, c);
    }
  }

  /** The identifier of an entry read from a line: n characters from position k. Only white
      space and, behind it, delimiters that begin with an equals sign come before it. */
  ghost predicate NameRead(line: string, e: Entry, k: nat, n: nat) {
    && k + n <= |line| && 1 <= n && |Name(e)| <= n && (Name(e) == "" ==> 2 <= n)
    && line[k] !in NAME_ENDS && (e.id != "" ==> line[k] == e.id[0])
    && (line[k] in SPACES ==> '=' in line[..k])
    && (0 < k ==> line[0] in SPACES || line[0] == '=')
    && (!NoneOf(e.id, NEWLINE) ==> e.id == line[k..k + n] && k + n == |line|)
  }

  /** The line without its leading white space. */
  function Stripped(line: string): string {
    line[Leading(line, SPACES)..]
  }

  /** The steps of radCfOpen for an entry. */
  lemma {:induction false} EntrySteps(line: string, e: Entry)
    requires ParseLine(line) == Kept(Data(e))
    ensures var s := Stripped(line);
      && s != "" && s[0] != '#' && s[0] !in SPACES && StrTok(s, NAME_ENDS).Token?
    ensures var t := StrTok(Stripped(line), NAME_ENDS); var v := StrTok(t.rest, VALUE_ENDS);
      && ParseName(t.text).Kept? && ParseName(t.text).record.entry.id == e.id
        && ParseName(t.text).record.entry.inst == e.inst
      && e.value == Text(v) && e.comment == FromHash(Text(StrTok(Rest(v), NEWLINE))) && |e.comment| < MAX_COMMENT_LENGTH
  {
    hide StrTok, Until, FromHash, ParseName;
  }

  lemma {:induction false} NameOnly(t: string, e: Entry)
    requires ParseName(t).Kept? && ParseName(t).record.entry.id == e.id && ParseName(t).record.entry.inst == e.inst
    ensures Name(e) == Name(ParseName(t).record.entry)
  {
  }

  /** Where the identifier stands: s is the rest of the line from position `lead`, its token
      begins behind `skip` delimiters. */
  lemma {:induction false} NamePlace(line: string, e: Entry, s: string, lead: nat, skip: nat, t: string)
    requires OneLine(line) && lead <= |line| && s == line[lead..] && s != "" && s[0] !in SPACES
    requires 0 < lead ==> line[0] in SPACES
    requires skip + |t| <= |s| && t == s[skip..skip + |t|] && t != "" && NoneOf(t, NAME_ENDS)
    requires 0 < skip ==> s[0] in NAME_ENDS
    requires ParseName(t).Kept? && ParseName(t).record.entry.id == e.id && ParseName(t).record.entry.inst == e.inst
    ensures CleanName(e.id, e.inst) && NameRead(line, e, lead + skip, |t|)
  {
    hide ParseName, Name, CleanName, NoneOf;
    assert t == line[lead + skip..lead + skip + |t|];
    assert forall i | 0 <= i < |t| :: t[i] == line[lead + skip + i];
    assert line[lead] == s[0];
    NameIsCleanAsRead(t);
    NameOnly(t, e);
    NotIn(t, NAME_ENDS);
    if 0 < skip {
      assert s[0] == '=' && line[..lead + skip][lead] == '=';
    }
  }

  lemma {:induction false} NotIn(t: string, d: set<char>)
    requires NoneOf(t, d) && t != ""
    ensures t[0] !in d
  {
  }

  /** What is left of the line behind the identifier. */
  function AfterName(line: string, at: nat): string {
    if at < |line| then line[at + 1..] else ""
  }

  /** The first token of a line, by position. */
  lemma {:induction false} NameToken(line: string, s: string, t: Token) returns (lead: nat, skip: nat)
    requires s == Stripped(line) && t == StrTok(s, NAME_ENDS) && t.Token?
    ensures lead <= |line| && s == line[lead..] && skip + |t.text| <= |s| && t.text == s[skip..skip + |t.text|]
    ensures t.text != "" && NoneOf(t.text, NAME_ENDS) && t.rest == AfterName(line, lead + skip + |t.text|)
    ensures (0 < lead ==> line[0] in SPACES) && (0 < skip ==> s[0] in NAME_ENDS)
  {
    hide StrTok, Until, NoneOf;
    TokenAt(s, NAME_ENDS);
    lead, skip := Leading(line, SPACES), Leading(s, NAME_ENDS);
    var at := skip + |t.text|;
    assert at < |s| ==> s[at + 1..] == line[lead + at + 1..];
  }

  lemma {:induction false} NameAsRead(line: string, e: Entry) returns (k: nat, n: nat)
    requires OneLine(line) && ParseLine(line) == Kept(Data(e))
    ensures CleanName(e.id, e.inst) && NameRead(line, e, k, n)
    ensures StrTok(Stripped(line), NAME_ENDS).Token? && StrTok(Stripped(line), NAME_ENDS).rest == AfterName(line, k + n)
  {
    hide StrTok, Until, Leading, ParseName, Name, CleanName, NameRead, ParseLine, NoneOf, AfterName, OneLine, Stripped;
    EntrySteps(line, e);
    var s := Stripped(line);
    var t := StrTok(s, NAME_ENDS);
    var lead, skip := NameToken(line, s, t);
    NamePlace(line, e, s, lead, skip, t.text);
    k, n := lead + skip, |t.text|;
  }

  /** What an entry read from a line is like, and how much of the line it takes. */
  lemma {:induction false} EntryAsRead(line: string, e: Entry) returns (k: nat, n: nat)
    requires OneLine(line) && ParseLine(line) == Kept(Data(e))
    ensures CleanName(e.id, e.inst) && CleanRest(e.value, e.comment) && |e.comment| < MAX_COMMENT_LENGTH
    ensures NameRead(line, e, k, n)
    ensures e.value != "" ==> k + n + 1 + |e.value| + Behind(e.comment) + One(EndsLine(line)) <= |line|
    ensures e.comment != "" && !EndsLine(line) ==> EndsWith(line, e.comment)
  {
    hide StrTok, Until, Leading, FromHash, ParseName, CleanName, CleanRest, ParseLine, EndsWith;
    k, n := NameAsRead(line, e);
    EntrySteps(line, e);
    var rest := AfterName(line, k + n);
    BehindToken(line, k + n, rest);
    RestAsRead(rest);
  }

  // ----- only well-formed entries come back -----

  /** What holds of every entry that was read. */
  ghost predicate Clean(e: Entry) {
    CleanName(e.id, e.inst) && CleanRest(e.value, e.comment) && |e.comment| < MAX_COMMENT_LENGTH
  }

  lemma {:induction false} NoEquals(e: Entry)
    requires CleanName(e.id, e.inst)
    ensures NoneOf(Name(e), {'='}) && (NoneOf(e.id, NEWLINE) ==> NoneOf(Name(e), NEWLINE))
  {
    var n := Name(e);
    forall i | 0 <= i < |n| ensures n[i] !in {'='} && (NoneOf(e.id, NEWLINE) ==> n[i] !in NEWLINE) {
      if |e.id| < i < |n| - 1 { assert n[i] == e.inst[i - |e.id| - 1]; }
    }
  }

  /** The line of an entry, by position. */
  lemma {:induction false} LineOf(e: Entry)
    requires Clean(e) && NoneOf(e.id, NEWLINE)
    ensures var line, n := Print(Data(e)), |Name(e)|;
      && |line| == n + 1 + |e.value| + (if e.comment == "" then 1 else 3 + |e.comment|)
      && NoneOf(line[..|line| - 1], NEWLINE) && EndsLine(line) && line[n] == '=' && '=' !in line[..n]
      && (n != 0 ==> line[0] == Name(e)[0]) && (e.comment != "" ==> line[n + 2 + |e.value|] == '\t')
  {
    hide Name, CleanName;
    NoEquals(e);
    var line, n, t := Print(Data(e)), Name(e), Tail(e.comment);
    assert line[..|n|] == n;
    assert forall i | 0 <= i < |t| - 1 :: t[i] != '\n';
  }

  /** A comment line is not an entry. */
  lemma {:induction false} HashIsComment(line: string)
    ensures line != "" && line[0] == '#' ==> ParseLine(line) == Kept(Comment(line))
  {
    if line != "" && line[0] == '#' {
      LeadingIs(line, SPACES, 0);
      assert line[0..] == line;
    }
  }

  /** Where the name of an entry is found in the entry's own line: with no room to move. */
  lemma {:induction false} NameFound(e: Entry) returns (k: nat, m: nat)
    requires Clean(e) && NoneOf(e.id, NEWLINE) && |Print(Data(e))| < MAX_LINE_LENGTH
    requires ParseLine(Print(Data(e))) == Kept(Data(e))
    ensures NameRead(Print(Data(e)), e, k, m)
    ensures k + m <= |Name(e)| + 2 && (k + m == |Name(e)| + 2 ==> |Print(Data(e))| == k + m)
  {
    hide ParseLine, Print, CleanName, CleanRest, Name, NameRead, Clean, EndsWith;
    var line := Print(Data(e));
    LineOf(e);
    assert OneLine(line) by { assert forall i | 0 <= i < |line| - 1 :: line[..|line| - 1][i] == line[i]; }
    k, m := EntryAsRead(line, e);
    ValueOrNothing(e);
    if e.value == "" { NameWithin(line, e, k, m); }
  }

  lemma {:induction false} ValueOrNothing(e: Entry)
    requires Clean(e)
    ensures e.value == "" ==> e.comment == ""
  {
  }

  lemma {:induction false} NameWithin(line: string, e: Entry, k: nat, n: nat)
    requires NameRead(line, e, k, n)
    ensures k + n <= |line|
  {
  }

  /** A name that begins with white space is found no earlier than behind the equals sign; with
      no room to move, it is a lone newline. */
  lemma {:induction false} SpaceMoves(line: string, e: Entry, n: nat, k: nat, m: nat)
    requires n == |Name(e)| < |line| && line[n] == '=' && '=' !in line[..n] && EndsLine(line)
    requires NameRead(line, e, k, m) && k + m <= n + 2 && (k + m == n + 2 ==> |line| == k + m)
    ensures Name(e) != ""
    ensures Name(e)[0] in SPACES ==> e.id != "" && e.id[0] == '\n'
  {
    if Name(e) != "" && Name(e)[0] in SPACES {
      SpaceIsSkipped(line, e, n, k, m);
    }
  }

  lemma {:induction false} SpaceIsSkipped(line: string, e: Entry, n: nat, k: nat, m: nat)
    requires n == |Name(e)| < |line| && '=' !in line[..n] && NameRead(line, e, k, m)
    requires Name(e) != "" && Name(e)[0] in SPACES
    ensures e.id != "" && line[k] == e.id[0] && n < k && n <= m
  {
    var i :| 0 <= i < k && line[i] == '=';
    assert forall j | 0 <= j < n :: line[..n][j] == line[j] && line[j] in line[..n];
  }

  /** If an entry's line is read as that entry, its name begins the line. */
  lemma {:induction false} NameBegins(e: Entry)
    requires Clean(e) && NoneOf(e.id, NEWLINE) && |Print(Data(e))| < MAX_LINE_LENGTH
    requires ParseLine(Print(Data(e))) == Kept(Data(e))
    ensures Name(e) != "" && Name(e)[0] !in SPACES && Name(e)[0] != '#'
  {
    hide ParseLine, Print, CleanName, CleanRest, Name, Clean, EndsWith, NameRead;
    var line := Print(Data(e));
    LineOf(e);
    var k, m := NameFound(e);
    SpaceMoves(line, e, |Name(e)|, k, m);
    HashIsComment(line);
  }
}
