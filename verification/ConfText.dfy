/** C strings as radconffile.c takes them apart: isspace runs, strchr, strtok and fgets. A
    string here is what stands before the terminator. */
module ConfText {

  /** What isspace accepts in the C locale. */
  const SPACES: set<char> := {' ', '\t', '\n', 0xb as char, 0xc as char, '\r'}

  /** The delimiters of the three strtok calls on a line. */
  const NAME_ENDS: set<char> := {'=', ' ', '\t'}
  const VALUE_ENDS: set<char> := {' ', '#', '\t', '\n'}
  const NEWLINE: set<char> := {'\n'}

  const MAX_LINE_LENGTH := 512

  /** strspn: how many characters of `d` the string begins with. */
  function Leading(s: string, d: set<char>): (n: nat)
    ensures n <= |s| && (forall i | 0 <= i < n :: s[i] in d) && (n < |s| ==> s[n] !in d)
  {
    if s == "" || s[0] !in d then 0 else 1 + Leading(s[1..], d)
  }

  /** strcspn: how many characters precede the first one of `d`. */
  function Until(s: string, d: set<char>): (n: nat)
    ensures n <= |s| && (forall i | 0 <= i < n :: s[i] !in d) && (n < |s| ==> s[n] in d)
  {
    if s == "" || s[0] in d then 0 else 1 + Until(s[1..], d)
  }

  lemma {:induction false} LeadingIs(s: string, d: set<char>, n: nat)
    requires n <= |s| && (forall i | 0 <= i < n :: s[i] in d) && (n < |s| ==> s[n] !in d)
    ensures Leading(s, d) == n
  {
    var m := Leading(s, d);
    assert m < |s| ==> s[m] !in d;
  }

  lemma {:induction false} UntilIs(s: string, d: set<char>, n: nat)
    requires n <= |s| && (forall i | 0 <= i < n :: s[i] !in d) && (n < |s| ==> s[n] in d)
    ensures Until(s, d) == n
  {
    var m := Until(s, d);
    assert m < |s| ==> s[m] in d;
  }

  /** One call of strtok: the token and what later calls go on with; without a token nothing
      is left. */
  datatype Token = NoToken | Token(text: string, rest: string)

  function StrTok(s: string, d: set<char>): Token {
    var t := s[Leading(s, d)..];
    var n := Until(t, d);
    if t == "" then NoToken
    else Token(t[..n], if n < |t| then t[n + 1..] else "")
  }

  function Rest(t: Token): string {
    if t.NoToken? then "" else t.rest
  }

  function Text(t: Token): string {
    if t.NoToken? then "" else t.text
  }

  /** What fgets reads from a non-empty text: at most MAX_LINE_LENGTH - 1 characters, up to
      and with the first newline. */
  function LineLength(text: string): (n: nat)
    requires text != ""
    ensures 1 <= n <= |text| && n < MAX_LINE_LENGTH
  {
    var n := Until(text, NEWLINE);
    var line := if n < |text| then n + 1 else n;
    if line < MAX_LINE_LENGTH then line else MAX_LINE_LENGTH - 1
  }
}
