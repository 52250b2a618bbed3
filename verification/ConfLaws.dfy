/** What the calls on a configuration file add up to. */
module ConfLaws {
  import opened ConfText
  import opened ConfLine
  import opened ConfList
  import opened ConfRoundTrip
  import opened ConfFile
  import opened Wrappers

  // ----- flush and open -----

  lemma {:induction false} ReturnsBehind(front: seq<Record>, data: seq<Record>)
    requires AllSurvive(front)
    ensures Returns(front + data) <==> Returns(data)
  {
    hide ComesBack, Survives;
    var all, n := front + data, |front|;
    assert forall i | 0 <= i < |data| :: all[n + i] == data[i];
    assert forall i | 0 <= i < n :: all[i] == front[i] && all[i] in front;
    SurvivorsReturn(front);
    forall i | 0 <= i < |data| && Returns(all) ensures ComesBack(data[i]) && (i + 1 < |data| ==> Survives(data[i])) {
      assert ComesBack(all[n + i]);
    }
  }

  lemma {:induction false} SurvivorsReturn(rs: seq<Record>)
    ensures forall r | r in rs && Survives(r) :: ComesBack(r)
  {
  }

  /** Whatever header a flush adds, opening the file again gives exactly the records that were
      flushed if and only if all of them survive, save that the last may lack its newline; and
      another flush adds nothing. */
  lemma {:induction false} FlushedFileComesBack(data: seq<Record>, name: string, lines: seq<string>)
    requires Plain(name) && forall s | s in lines :: Plain(s)
    ensures var flushed := WithHeader(data, name, lines);
      && (ReadFile(PrintAll(flushed)) == Contents(flushed) <==> Returns(data))
      && WithHeader(flushed, name, lines) == flushed
  {
    hide Plain, ReadFile, PrintAll, Survives, Returns;
    HeaderSurvives(name, lines);
    ReturnsBehind(Header(name, lines), data);
    FileRoundTrip(WithHeader(data, name, lines));
  }

  // ----- searching -----

  lemma {:induction false} SearchIs(data: seq<Record>, id: string, inst: Option<string>, from: nat, p: nat)
    requires from <= p <= |data| && (p < |data| ==> Matches(data[p], id, inst))
    requires forall i | from <= i < p :: !Matches(data[i], id, inst)
    ensures Search(data, id, inst, from) == p
  {
    var q := Search(data, id, inst, from);
    assert q < |data| ==> Matches(data[q], id, inst);
  }

  /** Records in front that do not match are not seen. */
  lemma {:induction false} SearchBehind(front: seq<Record>, data: seq<Record>, id: string, inst: Option<string>)
    requires forall r | r in front :: !Matches(r, id, inst)
    ensures Search(front + data, id, inst, 0) == |front| + Search(data, id, inst, 0)
  {
    var all, p := front + data, |front| + Search(data, id, inst, 0);
    forall i | 0 <= i < p ensures !Matches(all[i], id, inst) {
      assert i < |front| ==> all[i] in front;
    }
    SearchIs(all, id, inst, 0, p);
  }

  /** A header changes no lookup. */
  lemma {:induction false} HeaderIsNotSearched(data: seq<Record>, name: string, lines: seq<string>, id: string,
                                               inst: Option<string>)
    ensures Lookup(WithHeader(data, name, lines), id, inst) == Lookup(data, id, inst)
  {
    SearchBehind(Header(name, lines), data, id, inst);
  }

  // ----- put and get -----

  /** What was put is what is got: the entry is there, with the value, at the place it had. */
  lemma {:induction false} PutThenGet(data: seq<Record>, id: string, inst: Option<string>, value: string,
                                      comment: Option<string>)
    ensures Lookup(Put(data, id, inst, value, comment), id, inst) == Some(value)
    ensures Search(Put(data, id, inst, value, comment), id, inst, 0) == Search(data, id, inst, 0)
  {
    var p := Search(data, id, inst, 0);
    SearchIs(Put(data, id, inst, value, comment), id, inst, 0, p);
  }

  /** No lookup that asks for another identifier, or for another instance of this one than the
      entry that was put has, gives anything new. */
  lemma {:induction false} PutLeavesOthers(data: seq<Record>, id: string, inst: Option<string>, value: string,
                                           comment: Option<string>, id': string, inst': Option<string>)
    requires var e := PutRecord(data, Search(data, id, inst, 0), id, inst, value, comment);
      !Matches(Data(e), id', inst')
    ensures Lookup(Put(data, id, inst, value, comment), id', inst') == Lookup(data, id', inst')
  {
    var p, q := Search(data, id, inst, 0), Search(data, id', inst', 0);
    var data' := Put(data, id, inst, value, comment);
    assert p < |data| ==> !Matches(data[p], id', inst');
    SearchIs(data', id', inst', 0, if q == |data| then |data'| else q);
  }

  /** A second put of the same entry overwrites the first, in its place; without a comment it
      keeps the one there is. */
  lemma {:induction false} PutTwice(data: seq<Record>, id: string, inst: Option<string>,
                                    value: string, comment: Option<string>, value': string, comment': Option<string>)
    ensures Put(Put(data, id, inst, value, comment), id, inst, value', comment') ==
      Put(data, id, inst, value', if comment'.Some? then comment' else comment)
  {
    PutThenGet(data, id, inst, value, comment);
  }

  /** Whether all records but the one at p return; a record put at the end makes the last one
      stand in the middle. */
  ghost predicate OthersReturn(data: seq<Record>, p: nat) {
    forall i | 0 <= i < |data| && i != p :: ComesBack(data[i]) && (i + 1 < |data| || p == |data| ==> Survives(data[i]))
  }

  lemma {:induction false} PutReturns(data: seq<Record>, id: string, inst: Option<string>, value: string,
                                      comment: Option<string>)
    ensures var p := Search(data, id, inst, 0);
      Returns(Put(data, id, inst, value, comment))
      <==> WellFormed(PutRecord(data, p, id, inst, value, comment)) && OthersReturn(data, p)
  {
    hide WellFormed, WellFormedComment, FullLine, PutRecord;
    var p, data' := Search(data, id, inst, 0), Put(data, id, inst, value, comment);
    var r := Data(PutRecord(data, p, id, inst, value, comment));
    assert data'[p] == r && forall i | 0 <= i < |data| && i != p :: data'[i] == data[i];
    if Returns(data') {
      forall i | 0 <= i < |data| && i != p
        ensures ComesBack(data[i]) && (i + 1 < |data| || p == |data| ==> Survives(data[i]))
      {
        assert ComesBack(data'[i]);
      }
    }
  }

  /** A put that is flushed takes effect in the file if and only if its entry is well-formed and
      the other records return; the value is then got back. */
  lemma {:induction false} StoredValueComesBack(data: seq<Record>, name: string, lines: seq<string>, id: string,
                                                inst: Option<string>, value: string, comment: Option<string>)
    requires Plain(name) && forall s | s in lines :: Plain(s)
    ensures var p, flushed := Search(data, id, inst, 0), WithHeader(Put(data, id, inst, value, comment), name, lines);
      var file := ReadFile(PrintAll(flushed));
      && (file == Contents(flushed)
          <==> WellFormed(PutRecord(data, p, id, inst, value, comment)) && OthersReturn(data, p))
      && (file == Contents(flushed) ==> Lookup(file.records, id, inst) == Some(value))
  {
    hide WellFormed, Plain, ReadFile, PrintAll, OthersReturn, Returns;
    var data' := Put(data, id, inst, value, comment);
    FlushedFileComesBack(data', name, lines);
    PutReturns(data, id, inst, value, comment);
    HeaderIsNotSearched(data', name, lines, id, inst);
    PutThenGet(data, id, inst, value, comment);
  }

  /** A put that is lost: the file ends in a comment without a newline, the new entry is written
      behind it on the same line, and is read as part of the comment. */
  lemma {:induction false} LostPut(name: string, lines: seq<string>)
    ensures var data, e := [Comment("# x")], Entry("a", "", "1", "");
      && ReadFile("# x") == Contents(data)
      && var flushed := WithHeader(Put(data, "a", None, "1", None), name, lines);
      && flushed == data + [Data(e)]
      && ReadFile(PrintAll(flushed)) == Contents([Comment("# xa=1\n")])
      && Lookup([Comment("# xa=1\n")], "a", None) == None
  {
    var data, e := [Comment("# x")], Entry("a", "", "1", "");
    LastComesBack(data[0]);
    var both := data + [Data(e)];
    assert Search(data, "a", None, 0) == 1;
    assert Put(data, "a", None, "1", None) == both;
    assert both[1..] == [Data(e)];
    PrintOne(Data(e));
    assert PrintAll(both) == "# x" + Print(Data(e)) == "# xa=1\n";
    LastComesBack(Comment("# xa=1\n"));
  }

  // ----- radCfGetFirstEntry and radCfGetNextEntry -----

  /** What the call of GetFirstEntry and the calls of GetNextEntry after it find, one by one,
      until they fail. */
  function Found(data: seq<Record>, id: string, from: nat): seq<Entry>
    requires from <= |data|
    decreases |data| - from
  {
    var p := Search(data, id, None, from);
    if p == |data| then [] else [data[p].entry] + Found(data, id, p + 1)
  }

  /** The entries of an identifier. */
  function EntriesOf(data: seq<Record>, id: string): seq<Entry> {
    if data == [] then []
    else (if data[0].Data? && data[0].entry.id == id then [data[0].entry] else []) + EntriesOf(data[1..], id)
  }

  lemma {:induction false} NoEntries(data: seq<Record>, id: string, from: nat, p: nat)
    requires from <= p <= |data| && forall i | from <= i < p :: !Matches(data[i], id, None)
    ensures EntriesOf(data[from..], id) == EntriesOf(data[p..], id)
    decreases p - from
  {
    if from < p {
      assert data[from..][1..] == data[from + 1..];
      NoEntries(data, id, from + 1, p);
    }
  }

  /** First and next visit every entry of the identifier once, in file order. */
  lemma {:induction false} FirstAndNextFindAll(data: seq<Record>, id: string, from: nat)
    requires from <= |data|
    ensures Found(data, id, from) == EntriesOf(data[from..], id)
    decreases |data| - from
  {
    var p := Search(data, id, None, from);
    NoEntries(data, id, from, p);
    if p < |data| {
      FirstAndNextFindAll(data, id, p + 1);
      assert data[p..][1..] == data[p + 1..];
    }
  }
}
