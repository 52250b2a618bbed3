/** Records of a configuration file: how radCfFlush writes one and how radCfOpen reads one
    line back. */
module ConfLine {
  import opened ConfText

  const MAX_ID_LENGTH := 64
  const MAX_INSTANCE_LENGTH := 32
  const MAX_COMMENT_LENGTH := 128

  datatype Entry = Entry(id: string, inst: string, value: string, comment: string)

  datatype Record = Comment(text: string) | Data(entry: Entry)

  // ----- writing -----

  /** The identifier with its instance, if it has one. */
  function Name(e: Entry): string {
    if e.inst == "" then e.id else e.id + "[" + e.inst + "]"
  }

  /** The end of an entry's line, behind the value. */
  function Tail(comment: string): string {
    (if comment == "" then "" else "\t\t" + comment) + "\n"
  }

  function Print(r: Record): string {
    match r
    case Comment(text) => text
    case Data(e) => Name(e) + "=" + e.value + Tail(e.comment)
  }

  // ----- reading -----

  /** What becomes of one line: a record, a line passed over with a message, or a field that
      leaves no room for its terminator, after which nothing is known. */
  datatype Parsed = Kept(record: Record) | Skipped | Overrun

  /** The identifier token: id and instance. */
  function ParseName(token: string): (p: Parsed)
    ensures p.Kept? ==> p.record.Data?
  {
    var open, close := Until(token, {'['}), Until(token, {']'});
    if open < |token| then
      if close == |token| || close - (open + 1) > MAX_INSTANCE_LENGTH || open > MAX_ID_LENGTH then Skipped
      else if close < open || close - (open + 1) == MAX_INSTANCE_LENGTH || open == MAX_ID_LENGTH then Overrun
      else Kept(Data(Entry(token[..open], token[open + 1..close], "", "")))
    else if |token| > MAX_ID_LENGTH then Skipped
    else if |token| == MAX_ID_LENGTH then Overrun
    else Kept(Data(Entry(token, "", "", "")))
  }

  /** The rest of a line from its first `#`. */
  function FromHash(s: string): string {
    s[Until(s, {'#'})..]
  }

  /** An entry's line, from its first character that is no white space. */
  function ParseEntry(s: string): Parsed {
    var name := StrTok(s, NAME_ENDS);
    if name.NoToken? then Skipped
    else
      var p := ParseName(name.text);
      if !p.Kept? then p
      else
        var value := StrTok(name.rest, VALUE_ENDS);
        var comment := FromHash(Text(StrTok(Rest(value), NEWLINE)));
        if |comment| >= MAX_COMMENT_LENGTH then Overrun
        else Kept(Data(p.record.entry.(value := Text(value), comment := comment)))
  }

  function ParseLine(line: string): Parsed {
    var s := line[Leading(line, SPACES)..];
    if s == "" then Kept(Comment(line))
    else if s[0] == '#' then Kept(Comment(s))
    else ParseEntry(s)
  }

  // ----- the records that survive -----

  ghost predicate NoneOf(s: string, d: set<char>) {
    forall i | 0 <= i < |s| :: s[i] !in d
  }

  /** What a caller has to keep to, so that an entry comes back as it was written. */
  ghost predicate WellFormed(e: Entry) {
    && Name(e) != "" && Name(e)[0] !in SPACES && Name(e)[0] != '#'
    && NoneOf(e.id, {'=', ' ', '\t', '\n', '['}) && NoneOf(e.inst, {'=', ' ', '\t', '\n', ']'})
      && (e.inst != "" ==> NoneOf(e.id, {']'}))
    && NoneOf(e.value, {' ', '#', '\t', '\n'}) && (e.value == "" ==> e.comment == "")
    && NoneOf(e.comment, {'\n'}) && (e.comment != "" ==> e.comment[0] == '#')
    && |e.id| < MAX_ID_LENGTH && |e.inst| < MAX_INSTANCE_LENGTH && |e.comment| < MAX_COMMENT_LENGTH
    && |Print(Data(e))| < MAX_LINE_LENGTH
  }

  // ----- what is written is read -----

  /** The first token of a + sep + b, where `a` holds no delimiter and `sep` is one. */
  lemma {:induction false} FirstToken(a: string, sep: char, b: string, d: set<char>)
    requires a != "" && NoneOf(a, d) && sep in d
    ensures StrTok(a + [sep] + b, d) == Token(a, b)
  {
    var s := a + [sep] + b;
    LeadingIs(s, d, 0);
    assert s[0..] == s;
    UntilIs(s, d, |a|);
    assert s[..|a|] == a && s[|a| + 1..] == b;
  }

  lemma {:induction false} NoTokenLeft(s: string, d: set<char>)
    requires forall i | 0 <= i < |s| :: s[i] in d
    ensures StrTok(s, d) == NoToken
  {
    LeadingIs(s, d, |s|);
  }

  lemma {:induction false} ParsesName(e: Entry)
    requires WellFormed(e)
    ensures ParseName(Name(e)) == Kept(Data(Entry(e.id, e.inst, "", "")))
  {
    var n := Name(e);
    if e.inst == "" {
      UntilIs(n, {'['}, |n|);
    } else {
      UntilIs(n, {'['}, |e.id|);
      UntilIs(n, {']'}, |n| - 1);
      assert n[..|e.id|] == e.id && n[|e.id| + 1..|n| - 1] == e.inst;
    }
  }

  lemma {:induction false} NameIsClean(e: Entry)
    requires WellFormed(e)
    ensures NoneOf(Name(e), NAME_ENDS) && NoneOf(Name(e), NEWLINE)
  {
    assert NoneOf(e.id, {'=', ' ', '\t', '\n', '['}) && NoneOf(e.inst, {'=', ' ', '\t', '\n', ']'});
    forall i | 0 <= i < |Name(e)| ensures Name(e)[i] !in NAME_ENDS && Name(e)[i] !in NEWLINE {
      if |e.id| < i < |Name(e)| - 1 { assert Name(e)[i] == e.inst[i - |e.id| - 1]; }
    }
  }

  lemma {:induction false} ParsesComment(c: string)
    requires NoneOf(c, NEWLINE) && c != "" && c[0] == '#'
    ensures FromHash(Text(StrTok("\t" + c + "\n", NEWLINE))) == c
  {
    var t := "\t" + c;
    FirstToken(t, '\n', "", NEWLINE);
    assert t + ['\n'] + "" == "\t" + c + "\n";
    UntilIs(t, {'#'}, 1);
    assert t[1..] == c;
  }

  lemma {:induction false} ParsesValue(value: string, tail: string)
    requires NoneOf(value, VALUE_ENDS) && value != "" && tail != "" && tail[0] in {'\t', '\n'}
    ensures StrTok(value + tail, VALUE_ENDS) == Token(value, tail[1..])
  {
    assert value + tail == value + [tail[0]] + tail[1..];
    FirstToken(value, tail[0], tail[1..], VALUE_ENDS);
  }

  /** An entry without a value has nothing behind the equals sign but the newline. */
  lemma {:induction false} ParsesNothing()
    ensures StrTok("" + Tail(""), VALUE_ENDS) == NoToken && FromHash(Text(StrTok("", NEWLINE))) == ""
  {
    var t := "" + Tail("");
    assert |t| == 1 && t[0] == '\n';
    NoTokenLeft(t, VALUE_ENDS);
    NoTokenLeft("", NEWLINE);
  }

  lemma {:induction false} ParsesTail(value: string, comment: string)
    requires NoneOf(value, VALUE_ENDS) && value != ""
    requires NoneOf(comment, NEWLINE) && (comment != "" ==> comment[0] == '#')
    ensures var v := StrTok(value + Tail(comment), VALUE_ENDS);
      Text(v) == value && FromHash(Text(StrTok(Rest(v), NEWLINE))) == comment
  {
    hide StrTok, Leading, Until, NoneOf, FromHash;
    var t := Tail(comment);
    ParsesValue(value, t);
    if comment == "" {
      ParsesNothing();
      assert t[1..] == "";
    } else {
      assert t[1..] == "\t" + comment + "\n";
      ParsesComment(comment);
    }
  }

  lemma {:induction false} ParsesRest(e: Entry)
    requires WellFormed(e)
    ensures var v := StrTok(e.value + Tail(e.comment), VALUE_ENDS);
      Text(v) == e.value && FromHash(Text(StrTok(Rest(v), NEWLINE))) == e.comment
  {
    hide StrTok, Leading, Until, NoneOf, FromHash, Tail, Name, Print;
    if e.value == "" {
      ParsesNothing();
    } else {
      ParsesTail(e.value, e.comment);
    }
  }

  /** The line of a well-formed entry is read back as that entry. */
  lemma {:induction false} WellFormedIsRead(e: Entry)
    requires WellFormed(e)
    ensures ParseLine(Print(Data(e))) == Kept(Data(e))
  {
    var n, line := Name(e), Print(Data(e));
    assert line == n + ['='] + (e.value + Tail(e.comment));
    LeadingIs(line, SPACES, 0);
    assert line[0..] == line;
    NameIsClean(e);
    FirstToken(n, '=', e.value + Tail(e.comment), NAME_ENDS);
    ParsesName(e);
    ParsesRest(e);
  }

  // ----- what is read, for any line -----

  /** An identifier without a bracket: id alone, if the array holds it. */
  lemma {:induction false} BareNameIsRead(id: string)
    requires NoneOf(id, {'['})
    ensures ParseName(id) ==
      if |id| > 64 then Skipped else if |id| == 64 then Overrun else Kept(Data(Entry(id, "", "", "")))
  {
    UntilIs(id, {'['}, |id|);
  }

  /** An identifier with an instance: what stands between the first brackets; what follows
      them is dropped. */
  lemma {:induction false} NameIsRead(id: string, inst: string, tail: string)
    requires NoneOf(id, {'[', ']'}) && NoneOf(inst, {']'})
    ensures ParseName(id + "[" + inst + "]" + tail) ==
      if |inst| > 32 || |id| > 64 then Skipped
      else if |inst| == 32 || |id| == 64 then Overrun
      else Kept(Data(Entry(id, inst, "", "")))
  {
    var t, n, m := id + "[" + inst + "]" + tail, |id|, |id| + 1 + |inst|;
    assert forall i | 0 <= i < n :: t[i] == id[i] && id[i] !in {'[', ']'};
    assert forall i | n < i < m :: t[i] == inst[i - n - 1] && inst[i - n - 1] !in {']'};
    UntilIs(t, {'['}, n);
    UntilIs(t, {']'}, m);
    assert t[..n] == id && t[n + 1..m] == inst;
  }

  /** Brackets that do not close, or close before they open. */
  lemma {:induction false} NameIsNotRead(id: string, rest: string)
    requires NoneOf(id, {'['})
    ensures NoneOf(id, {']'}) && NoneOf(rest, {']'}) ==> ParseName(id + "[" + rest) == Skipped
    ensures !NoneOf(id, {']'}) ==> ParseName(id + "[" + rest) == if |id| > 64 then Skipped else Overrun
  {
    var t, n := id + "[" + rest, |id|;
    assert forall i | 0 <= i < n :: t[i] == id[i];
    assert forall i | n < i < |t| :: t[i] == rest[i - n - 1];
    UntilIs(t, {'['}, n);
    if NoneOf(id, {']'}) && NoneOf(rest, {']'}) {
      UntilIs(t, {']'}, |t|);
    } else if !NoneOf(id, {']'}) {
      var i :| 0 <= i < n && id[i] == ']';
      assert t[i] == ']' && Until(t, {']'}) <= i;
    }
  }

  ghost predicate AllOf(s: string, d: set<char>) {
    forall i | 0 <= i < |s| :: s[i] in d
  }

  /** A comment is kept without the white space in front of it, a blank line as it is. */
  lemma {:induction false} CommentLineIsRead(lead: string, text: string)
    requires AllOf(lead, SPACES)
    ensures text != "" && text[0] == '#' ==> ParseLine(lead + text) == Kept(Comment(text))
    ensures ParseLine(lead) == Kept(Comment(lead))
  {
    LeadingIs(lead, SPACES, |lead|);
    if text != "" && text[0] == '#' {
      LeadingIs(lead + text, SPACES, |lead|);
      assert (lead + text)[|lead|..] == text;
    }
  }

  /** The first token behind leading delimiters. */
  lemma {:induction false} TokenBehind(gap: string, a: string, sep: char, b: string, d: set<char>)
    requires AllOf(gap, d) && a != "" && NoneOf(a, d) && sep in d
    ensures StrTok(gap + (a + [sep] + b), d) == Token(a, b)
  {
    var s, t := gap + (a + [sep] + b), a + [sep] + b;
    assert t[0] == a[0];
    LeadingIs(s, d, |gap|);
    assert s[|gap|..] == t;
    FirstToken(a, sep, b, d);
    LeadingIs(t, d, 0);
    assert t[0..] == t;
  }

  /** The comment is what stands behind the value from its first # to the end of the line. */
  lemma {:induction false} CommentIsFound(gap: string, comment: string)
    requires NoneOf(gap, {'#', '\n'}) && NoneOf(comment, {'\n'}) && (comment != "" ==> comment[0] == '#')
    ensures FromHash(Text(StrTok(gap + comment + "\n", NEWLINE))) == comment
  {
    var t := gap + comment;
    assert forall i | 0 <= i < |gap| :: t[i] == gap[i];
    assert forall i | |gap| <= i < |t| :: t[i] == comment[i - |gap|];
    if t == "" {
      assert gap + comment + "\n" == "\n";
      NoTokenLeft("\n", NEWLINE);
      UntilIs("", {'#'}, 0);
    } else {
      assert gap + comment + "\n" == t + ['\n'] + "";
      FirstToken(t, '\n', "", NEWLINE);
      UntilIs(t, {'#'}, |gap|);
      assert t[|gap|..] == comment;
    }
  }

  /** A line with an identifier, a value and perhaps a comment, with any delimiters between
      them and any white space in front, is read as these three. */
  lemma {:induction false} LineIsRead(lead: string, name: string, sep: char, gap: string, value: string, sep': char,
                                      gap': string, comment: string)
    requires AllOf(lead, SPACES) && name != "" && name[0] !in SPACES && name[0] != '#'
    requires NoneOf(name, {'=', ' ', '\t'}) && sep in {'=', ' ', '\t'}
    requires AllOf(gap, {' ', '#', '\t', '\n'}) && value != "" && NoneOf(value, {' ', '#', '\t', '\n'})
    requires sep' in {' ', '#', '\t', '\n'} && NoneOf(gap', {'#', '\n'})
    requires NoneOf(comment, {'\n'}) && (comment != "" ==> comment[0] == '#')
    ensures var line := lead + (name + [sep] + (gap + (value + [sep'] + (gap' + comment + "\n"))));
      ParseLine(line) == match ParseName(name)
        case Kept(r) =>
          if |comment| >= 128 then Overrun else Kept(Data(Entry(r.entry.id, r.entry.inst, value, comment)))
        case p => p
  {
    hide ParseName, StrTok, FromHash, Until;
    var rest := gap + (value + [sep'] + (gap' + comment + "\n"));
    var s := name + [sep] + rest;
    var line := lead + s;
    assert s[0] == name[0];
    LeadingIs(line, SPACES, |lead|);
    assert line[|lead|..] == s;
    FirstToken(name, sep, rest, NAME_ENDS);
    TokenBehind(gap, value, sep', gap' + comment + "\n", VALUE_ENDS);
    CommentIsFound(gap', comment);
  }

  /** A line with nothing behind its identifier but delimiters. */
  lemma {:induction false} LoneNameIsRead(lead: string, name: string, sep: char, gap: string)
    requires AllOf(lead, SPACES) && name != "" && name[0] !in SPACES && name[0] != '#'
    requires NoneOf(name, {'=', ' ', '\t'}) && sep in {'=', ' ', '\t'} && AllOf(gap, {' ', '#', '\t', '\n'})
    ensures ParseLine(lead + (name + [sep] + gap)) == match ParseName(name)
      case Kept(r) => Kept(Data(Entry(r.entry.id, r.entry.inst, "", "")))
      case p => p
  {
    hide ParseName, StrTok, Until;
    var s := name + [sep] + gap;
    var line := lead + s;
    assert s[0] == name[0];
    LeadingIs(line, SPACES, |lead|);
    assert line[|lead|..] == s;
    FirstToken(name, sep, gap, NAME_ENDS);
    NoTokenLeft(gap, VALUE_ENDS);
    NoTokenLeft("", NEWLINE);
    UntilIs("", {'#'}, 0);
  }
}
