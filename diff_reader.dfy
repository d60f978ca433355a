/** The diff reader: the loop of `applyDiffToInput` that consumes diff
    lines up to the first `commit`, decodes each `<command> <tuple>` line,
    resolves the tuple's relation to its fact file and records the
    tab-joined tuple in `toInsert` or `toDelete` for that file. */
module DiffReader {
  import opened Results
  import opened PyStrings
  import opened TupleCodec

  /** The first word of a diff line. Only `insert` and `remove` have an
      effect; any other word is accepted and ignored. */
  datatype Command = Insert | Remove | Unrecognised(word: String)

  /** One decoded diff line: what to do, to which file, with which
      tab-joined tuple. */
  datatype ChangeEntry = ChangeEntry(command: Command, file: String, key: String)

  /** Why reading a diff aborts: a line without a space cannot be unpacked
      into command and tuple, and a tuple text without `(` cannot be
      parsed. */
  datatype DiffError = MalformedDiffLine(line: String) | MalformedTuple(text: String)

  /** The two `defaultdict(set)`s: per file, the keys to insert and the
      keys to delete. A file is a key only once something was recorded. */
  datatype Changes = Changes(toInsert: map<String, set<String>>, toDelete: map<String, set<String>>)

  const Commit: String := "commit"

  const FactsSuffix: String := ".facts"

  /** Reading a `defaultdict(set)`: a missing file has the empty set. */
  function Lookup(m: map<String, set<String>>, file: String): set<String> {
    if file in m then m[file] else {}
  }

  function CommandOf(word: String): Command {
    if word == "remove" then Remove
    else if word == "insert" then Insert
    else Unrecognised(word)
  }

  /** The file backing a relation: its declared file name, or the
      relation name followed by `.facts`. */
  function ResolveFile(relName: String, relationToFile: map<String, String>): String {
    if relName in relationToFile then relationToFile[relName] else relName + FactsSuffix
  }

  /** A declared relation is backed by its declared file; any other one by a
      `.facts` file whose name with that suffix removed is the relation. */
  lemma ResolvedFile(relName: String, relationToFile: map<String, String>)
    ensures relName in relationToFile ==> ResolveFile(relName, relationToFile) == relationToFile[relName]
    ensures relName !in relationToFile ==>
      var file := ResolveFile(relName, relationToFile);
      EndsWith(file, FactsSuffix) && RemoveSuffix(file, FactsSuffix) == relName
  {
    RemoveAppendedSuffix(relName, FactsSuffix);
  }

  /** One right-stripped diff line that is not `commit`: it fails exactly
      when it has no space, or when the text after its first space has no
      `(`, and the error names the part that failed; otherwise it names the
      command word, the file of the relation and the tab-joined fields. */
  function DecodeLine(line: String, relationToFile: map<String, String>): (r: Result<ChangeEntry, DiffError>)
    ensures r.Failure? <==> SplitOnce(line, ' ').None? || '(' !in SplitOnce(line, ' ').value.1
    ensures r.Failure? && SplitOnce(line, ' ').None? ==> r.error == MalformedDiffLine(line)
    ensures r.Failure? && SplitOnce(line, ' ').Some? ==> r.error == MalformedTuple(SplitOnce(line, ' ').value.1)
    ensures r.Success? ==>
      var (word, text) := SplitOnce(line, ' ').value;
      && r.value.command == CommandOf(word)
      && r.value.file == ResolveFile(ParseTuple(text).value.0, relationToFile)
      && r.value.key == TabKey(ParseTuple(text).value.1)
  {
    match SplitOnce(line, ' ')
    case None => Failure(MalformedDiffLine(line))
    case Some((word, text)) =>
      match ParseTuple(text)
      case Failure(_) => Failure(MalformedTuple(text))
      case Success((relName, fields)) =>
        Success(ChangeEntry(CommandOf(word), ResolveFile(relName, relationToFile), TabKey(fields)))
  }

  /** A diff line built from a command word and a printed tuple decodes to
      that command, the relation's file and the tuple's tab-joined key. */
  lemma DecodePrintedLine(word: String, relName: String, t: Tuple, relationToFile: map<String, String>)
    requires ' ' !in word && '(' !in relName && |t| >= 1
    requires forall i :: 0 <= i < |t| ==> Printable(t[i])
    ensures DecodeLine(word + " " + PrintTuple(relName, t), relationToFile)
      == Success(ChangeEntry(CommandOf(word), ResolveFile(relName, relationToFile), TabKey(t)))
  {
    SplitOnceAt(word, ' ', PrintTuple(relName, t));
    assert word + " " + PrintTuple(relName, t) == word + [' '] + PrintTuple(relName, t);
    ParsePrintRoundTrip(relName, t);
  }

  /** What recording one entry does to the two dictionaries. */
  function Record(ch: Changes, e: ChangeEntry): Changes {
    match e.command
    case Remove => ch.(toDelete := ch.toDelete[e.file := Lookup(ch.toDelete, e.file) + {e.key}])
    case Insert => ch.(toInsert := ch.toInsert[e.file := Lookup(ch.toInsert, e.file) + {e.key}])
    case Unrecognised(_) => ch
  }

  /** A line decoder: `DecodeLine` under a fixed relation-to-file map. */
  type Decoder = String -> Result<ChangeEntry, DiffError>

  function DecoderFor(relationToFile: map<String, String>): Decoder {
    line => DecodeLine(line, relationToFile)
  }

  /** The changes recorded from `diffs` on top of `ch`, up to the first line
      whose `rstrip()` is `commit`, or the first error. */
  function ReadFrom(diffs: seq<String>, decode: Decoder, ch: Changes): Result<Changes, DiffError>
    decreases |diffs|
  {
    if diffs == [] then Success(ch)
    else
      var line := RStrip(diffs[0]);
      if line == Commit then Success(ch)
      else
        match decode(line)
        case Failure(e) => Failure(e)
        case Success(entry) => ReadFrom(diffs[1..], decode, Record(ch, entry))
  }

  /** The changes a diff denotes. */
  function DiffChanges(diffs: seq<String>, relationToFile: map<String, String>): Result<Changes, DiffError> {
    ReadFrom(diffs, DecoderFor(relationToFile), Changes(map[], map[]))
  }

  /** Lines 102-125 of `applyDiffToInput`. */
  method ReadDiff(diffs: seq<String>, relationToFile: map<String, String>) returns (r: Result<Changes, DiffError>)
    ensures r == DiffChanges(diffs, relationToFile)
  {
    var toInsert: map<String, set<String>> := map[];
    var toDelete: map<String, set<String>> := map[];
    var i := 0;
    while i < |diffs|
      invariant 0 <= i <= |diffs|
      invariant DiffChanges(diffs, relationToFile) == ReadFrom(diffs[i..], DecoderFor(relationToFile), Changes(toInsert, toDelete))
    {
      assert diffs[i..][0] == diffs[i] && diffs[i..][1..] == diffs[i + 1..];
      var line := RStrip(diffs[i]);
      if line == Commit {
        break;
      }
      var decoded := DecodeLine(line, relationToFile);
      if decoded.Failure? {
        return Failure(decoded.error);
      }
      var entry := decoded.value;
      if entry.command == Remove {
        toDelete := toDelete[entry.file := Lookup(toDelete, entry.file) + {entry.key}];
      } else if entry.command == Insert {
        toInsert := toInsert[entry.file := Lookup(toInsert, entry.file) + {entry.key}];
      }
      i := i + 1;
    }
    r := Success(Changes(toInsert, toDelete));
  }

  /** The first `commit` line ends the diff: it and every later line,
      malformed or not, contribute nothing. */
  lemma {:induction false} CommitEndsDiff(diffs: seq<String>, decode: Decoder, ch: Changes, k: int)
    requires 0 <= k < |diffs| && RStrip(diffs[k]) == Commit
    ensures ReadFrom(diffs, decode, ch) == ReadFrom(diffs[..k], decode, ch)
    decreases k
  {
    if k > 0 {
      assert diffs[..k][0] == diffs[0] && diffs[..k][1..] == diffs[1..][..k - 1];
      var line := RStrip(diffs[0]);
      if line != Commit && decode(line).Success? {
        CommitEndsDiff(diffs[1..], decode, Record(ch, decode(line).value), k - 1);
      }
    }
  }

  /** No line of `diffs` is the `commit` marker. */
  predicate BeforeCommit(diffs: seq<String>) {
    forall i :: 0 <= i < |diffs| ==> RStrip(diffs[i]) != Commit
  }

  /** Line `i` of the diff decodes to the entry `e`. */
  predicate LineDecodesTo(diffs: seq<String>, decode: Decoder, i: int, e: ChangeEntry) {
    0 <= i < |diffs| && decode(RStrip(diffs[i])) == Success(e)
  }

  /** Line `i` of the diff fails to decode. */
  predicate LineFails(diffs: seq<String>, decode: Decoder, i: int) {
    0 <= i < |diffs| && decode(RStrip(diffs[i])).Failure?
  }

  /** Every file recorded has at least one key. */
  predicate NonEmptyEntries(ch: Changes) {
    && (forall f :: f in ch.toInsert ==> ch.toInsert[f] != {})
    && (forall f :: f in ch.toDelete ==> ch.toDelete[f] != {})
  }

  /** Reading lines before the `commit` marker fails exactly when one of
      them fails to decode. */
  lemma {:induction false} ReadFails(diffs: seq<String>, decode: Decoder, ch: Changes)
    requires BeforeCommit(diffs)
    ensures ReadFrom(diffs, decode, ch).Failure? <==> exists i :: LineFails(diffs, decode, i)
    decreases |diffs|
  {
    if diffs != [] {
      var rest := diffs[1..];
      var d := decode(RStrip(diffs[0]));
      if d.Failure? {
        assert LineFails(diffs, decode, 0);
      } else {
        assert BeforeCommit(rest) by {
          assert forall i :: 0 <= i < |rest| ==> rest[i] == diffs[i + 1];
        }
        ReadFails(rest, decode, Record(ch, d.value));
        if exists i :: LineFails(diffs, decode, i) {
          var i :| LineFails(diffs, decode, i);
          assert rest[i - 1] == diffs[i];
          assert LineFails(rest, decode, i - 1);
        }
        if exists i :: LineFails(rest, decode, i) {
          var i :| LineFails(rest, decode, i);
          assert diffs[i + 1] == rest[i];
          assert LineFails(diffs, decode, i + 1);
        }
      }
    }
  }

  /** How one recorded entry changes what a file's sets contain. */
  lemma RecordContents(ch: Changes, e: ChangeEntry)
    requires NonEmptyEntries(ch)
    ensures NonEmptyEntries(Record(ch, e))
    ensures forall f, k :: k in Lookup(Record(ch, e).toInsert, f) <==>
      k in Lookup(ch.toInsert, f) || (e.command == Insert && e.file == f && e.key == k)
    ensures forall f, k :: k in Lookup(Record(ch, e).toDelete, f) <==>
      k in Lookup(ch.toDelete, f) || (e.command == Remove && e.file == f && e.key == k)
  {
  }

  /** Routing: on a diff that reads without error, a key is in a file's
      insert (delete) set exactly when some line before `commit` is an
      `insert` (`remove`) line whose tuple resolves to that file and joins
      to that key. Lines with any other command change neither set. */
  lemma {:induction false} ReadRouting(diffs: seq<String>, decode: Decoder, ch: Changes)
    requires BeforeCommit(diffs) && NonEmptyEntries(ch)
    requires ReadFrom(diffs, decode, ch).Success?
    ensures NonEmptyEntries(ReadFrom(diffs, decode, ch).value)
    ensures forall f, k :: k in Lookup(ReadFrom(diffs, decode, ch).value.toInsert, f) <==>
      k in Lookup(ch.toInsert, f) || exists i :: LineDecodesTo(diffs, decode, i, ChangeEntry(Insert, f, k))
    ensures forall f, k :: k in Lookup(ReadFrom(diffs, decode, ch).value.toDelete, f) <==>
      k in Lookup(ch.toDelete, f) || exists i :: LineDecodesTo(diffs, decode, i, ChangeEntry(Remove, f, k))
    decreases |diffs|
  {
    if diffs != [] {
      var e := decode(RStrip(diffs[0])).value;
      var ch' := Record(ch, e);
      var rest := diffs[1..];
      assert BeforeCommit(rest) by {
        assert forall i :: 0 <= i < |rest| ==> rest[i] == diffs[i + 1];
      }
      RecordContents(ch, e);
      ReadRouting(rest, decode, ch');
      var r := ReadFrom(rest, decode, ch').value;
      assert ReadFrom(diffs, decode, ch).value == r;
      forall f, k
        ensures k in Lookup(r.toInsert, f) <==>
          k in Lookup(ch.toInsert, f) || exists i :: LineDecodesTo(diffs, decode, i, ChangeEntry(Insert, f, k))
        ensures k in Lookup(r.toDelete, f) <==>
          k in Lookup(ch.toDelete, f) || exists i :: LineDecodesTo(diffs, decode, i, ChangeEntry(Remove, f, k))
      {
        DecodesToShift(diffs, decode, ChangeEntry(Insert, f, k));
        DecodesToShift(diffs, decode, ChangeEntry(Remove, f, k));
      }
    }
  }

  /** An entry is decoded from some line exactly when it is the first
      line's entry or is decoded from some later line. */
  lemma DecodesToShift(diffs: seq<String>, decode: Decoder, ce: ChangeEntry)
    requires diffs != [] && decode(RStrip(diffs[0])).Success?
    ensures (exists i :: LineDecodesTo(diffs, decode, i, ce)) <==>
      (decode(RStrip(diffs[0])).value == ce || exists i :: LineDecodesTo(diffs[1..], decode, i, ce))
  {
    var rest := diffs[1..];
    if exists i :: LineDecodesTo(diffs, decode, i, ce) {
      var i :| LineDecodesTo(diffs, decode, i, ce);
      if i > 0 {
        assert rest[i - 1] == diffs[i];
        assert LineDecodesTo(rest, decode, i - 1, ce);
      }
    }
    if exists i :: LineDecodesTo(rest, decode, i, ce) {
      var i :| LineDecodesTo(rest, decode, i, ce);
      assert rest[i] == diffs[i + 1];
      assert LineDecodesTo(diffs, decode, i + 1, ce);
    }
    if decode(RStrip(diffs[0])).value == ce {
      assert LineDecodesTo(diffs, decode, 0, ce);
    }
  }

  /** The files the diff touches: the keys of `toInsert | toDelete`. */
  function Touched(ch: Changes): set<String> {
    ch.toInsert.Keys + ch.toDelete.Keys
  }

  /** A file is touched exactly when some line before `commit` inserts into
      or removes from it. */
  lemma TouchedFiles(diffs: seq<String>, decode: Decoder)
    requires BeforeCommit(diffs) && ReadFrom(diffs, decode, Changes(map[], map[])).Success?
    ensures forall f :: f in Touched(ReadFrom(diffs, decode, Changes(map[], map[])).value) <==>
      exists i, k :: LineDecodesTo(diffs, decode, i, ChangeEntry(Insert, f, k))
                  || LineDecodesTo(diffs, decode, i, ChangeEntry(Remove, f, k))
  {
    var empty := Changes(map[], map[]);
    ReadRouting(diffs, decode, empty);
    var ch := ReadFrom(diffs, decode, empty).value;
    forall f
      ensures f in Touched(ch) <==>
        exists i, k :: LineDecodesTo(diffs, decode, i, ChangeEntry(Insert, f, k))
                    || LineDecodesTo(diffs, decode, i, ChangeEntry(Remove, f, k))
    {
      if f in ch.toInsert {
        var k :| k in ch.toInsert[f];
        assert k in Lookup(ch.toInsert, f);
      } else if f in ch.toDelete {
        var k :| k in ch.toDelete[f];
        assert k in Lookup(ch.toDelete, f);
      }
      if exists i, k :: LineDecodesTo(diffs, decode, i, ChangeEntry(Insert, f, k))
                     || LineDecodesTo(diffs, decode, i, ChangeEntry(Remove, f, k)) {
        var i, k :| LineDecodesTo(diffs, decode, i, ChangeEntry(Insert, f, k))
                 || LineDecodesTo(diffs, decode, i, ChangeEntry(Remove, f, k));
        if LineDecodesTo(diffs, decode, i, ChangeEntry(Insert, f, k)) {
          assert k in Lookup(ch.toInsert, f);
        } else {
          assert k in Lookup(ch.toDelete, f);
        }
      }
    }
  }
}

module DiffReaderExample {
  import opened Results
  import opened PyStrings
  import opened TupleCodec
  import opened DiffReader

  /** One `<command> <tuple>` line as a diff file holds it. */
  function DiffLine(word: String, relName: String, t: Tuple): String {
    word + " " + PrintTuple(relName, t) + "\n"
  }

  /** Such a line right-strips to the command and the printed tuple. */
  lemma DiffLineStrip(word: String, relName: String, t: Tuple)
    ensures RStrip(DiffLine(word, relName, t)) == word + " " + PrintTuple(relName, t)
  {
    var s := word + " " + PrintTuple(relName, t);
    RStripNewline(s);
    assert s[|s| - 1] == ')';
  }

  /** A one-character field other than white space and `,` is printable. */
  lemma CharPrintable(c: char)
    requires !IsSpace(c) && c != ','
    ensures Printable([c])
  {
    StripNoEdgeSpace([c]);
    assert !OccursAt([c], FieldSep, 0);
  }

  /** The key of a two-field tuple. */
  lemma PairKey(x: String, y: String)
    ensures TabKey([x, y]) == x + Tab + y
  {
    assert [x, y][1..] == [y];
    assert Join([y], Tab) == y;
    assert TabKey([x, y]) == x + Tab + Join([y], Tab);
  }

  /** A two-field tuple line decodes to its command, the relation's file
      and the key. */
  lemma PairLineDecodes(word: String, relName: String, x: String, y: String)
    requires ' ' !in word && '(' !in relName && Printable(x) && Printable(y)
    ensures DecodeLine(RStrip(DiffLine(word, relName, [x, y])), map[])
      == Success(ChangeEntry(CommandOf(word), ResolveFile(relName, map[]), x + Tab + y))
  {
    var t := [x, y];
    assert forall i :: 0 <= i < |t| ==> Printable(t[i]);
    DiffLineStrip(word, relName, t);
    DecodePrintedLine(word, relName, t, map[]);
    PairKey(x, y);
  }

  /** Recording a remove and then an insert for one file, from nothing. */
  lemma RecordPair(file: String, removed: String, inserted: String)
    ensures Record(Record(Changes(map[], map[]), ChangeEntry(Remove, file, removed)), ChangeEntry(Insert, file, inserted))
      == Changes(map[file := {inserted}], map[file := {removed}])
  {
    var empty: map<String, set<String>> := map[];
    assert Lookup(empty, file) == {};
    var c0 := Record(Changes(empty, empty), ChangeEntry(Remove, file, removed));
    assert c0.toDelete == empty[file := {} + {removed}];
    assert {} + {removed} == {removed};
    assert c0.toInsert == empty;
    assert Lookup(c0.toInsert, file) == {};
    var c1 := Record(c0, ChangeEntry(Insert, file, inserted));
    assert c1.toInsert == empty[file := {} + {inserted}];
    assert {} + {inserted} == {inserted};
    assert c1.toDelete == c0.toDelete;
  }

  /** A command line is not the `commit` marker. */
  lemma NotCommit(word: String, relName: String, t: Tuple)
    requires ' ' !in word
    ensures RStrip(DiffLine(word, relName, t)) != Commit
  {
    DiffLineStrip(word, relName, t);
    var s := word + " " + PrintTuple(relName, t);
    assert s[|word|] == ' ';
    assert ' ' !in Commit;
  }

  /** Reading steps over one line that decodes. */
  lemma ReadStep(diffs: seq<String>, decode: Decoder, ch: Changes, e: ChangeEntry)
    requires diffs != [] && RStrip(diffs[0]) != Commit && decode(RStrip(diffs[0])) == Success(e)
    ensures ReadFrom(diffs, decode, ch) == ReadFrom(diffs[1..], decode, Record(ch, e))
  {
  }

  /** Reading two lines that decode records both entries, in order. */
  lemma ReadTwo(l0: String, l1: String, decode: Decoder, ch: Changes, e0: ChangeEntry, e1: ChangeEntry)
    requires RStrip(l0) != Commit && decode(RStrip(l0)) == Success(e0)
    requires RStrip(l1) != Commit && decode(RStrip(l1)) == Success(e1)
    ensures ReadFrom([l0, l1], decode, ch) == Success(Record(Record(ch, e0), e1))
  {
    ReadStep([l0, l1], decode, ch, e0);
    assert [l0, l1][1..] == [l1];
    ReadStep([l1], decode, Record(ch, e0), e1);
    assert [l1][1..] == [];
  }

  /** The two command words. */
  lemma CommandWords()
    ensures CommandOf("remove") == Remove && CommandOf("insert") == Insert
  {
  }

  /** Two decoded lines and the `commit` marker: whatever follows the
      marker, reading records exactly the two entries. */
  lemma CommitRead(l0: String, l1: String, marker: String, junk: String, decode: Decoder, e0: ChangeEntry, e1: ChangeEntry)
    requires RStrip(l0) != Commit && decode(RStrip(l0)) == Success(e0)
    requires RStrip(l1) != Commit && decode(RStrip(l1)) == Success(e1)
    requires RStrip(marker) == Commit
    ensures ReadFrom([l0, l1, marker, junk], decode, Changes(map[], map[]))
      == Success(Record(Record(Changes(map[], map[]), e0), e1))
  {
    var empty := Changes(map[], map[]);
    CommitEndsDiff([l0, l1, marker, junk], decode, empty, 2);
    assert [l0, l1, marker, junk][..2] == [l0, l1];
    ReadTwo(l0, l1, decode, empty, e0, e1);
  }

  /** Two command lines of two-field tuples for one relation, then the
      `commit` marker, record both entries against the relation's file. */
  lemma PairRead(w0: String, w1: String, relName: String, x: String, y: String, u: String, v: String, marker: String, junk: String)
    requires ' ' !in w0 && ' ' !in w1
    requires '(' !in relName && Printable(x) && Printable(y) && Printable(u) && Printable(v)
    requires RStrip(marker) == Commit
    ensures DiffChanges([DiffLine(w0, relName, [x, y]), DiffLine(w1, relName, [u, v]), marker, junk], map[])
      == Success(Record(Record(Changes(map[], map[]),
           ChangeEntry(CommandOf(w0), relName + FactsSuffix, x + Tab + y)),
           ChangeEntry(CommandOf(w1), relName + FactsSuffix, u + Tab + v)))
  {
    var l0, l1 := DiffLine(w0, relName, [x, y]), DiffLine(w1, relName, [u, v]);
    var file := relName + FactsSuffix;
    PairLineDecodes(w0, relName, x, y);
    PairLineDecodes(w1, relName, u, v);
    NotCommit(w0, relName, [x, y]);
    NotCommit(w1, relName, [u, v]);
    CommitRead(l0, l1, marker, junk, DecoderFor(map[]), ChangeEntry(CommandOf(w0), file, x + Tab + y), ChangeEntry(CommandOf(w1), file, u + Tab + v));
  }

  /** A remove and an insert of two-field tuples before `commit` are
      recorded against the relation's file; the line after `commit` is
      ignored, whatever it holds. */
  lemma {:induction false} CommitExample(relName: String, x: String, y: String, u: String, v: String, marker: String, junk: String)
    requires '(' !in relName && Printable(x) && Printable(y) && Printable(u) && Printable(v)
    requires RStrip(marker) == Commit
    ensures DiffChanges([DiffLine("remove", relName, [x, y]), DiffLine("insert", relName, [u, v]), marker, junk], map[])
      == Success(Changes(map[relName + FactsSuffix := {u + Tab + v}], map[relName + FactsSuffix := {x + Tab + y}]))
  {
    PairRead("remove", "insert", relName, x, y, u, v, marker, junk);
    CommandWords();
    RecordPair(relName + FactsSuffix, x + Tab + y, u + Tab + v);
  }

  /** The fields of the edge diff are printable, and `edge` names a
      relation. */
  lemma EdgeFields()
    ensures Printable("1") && Printable("2") && Printable("5") && Printable("6")
    ensures '(' !in "edge"
  {
    CharPrintable('1');
    CharPrintable('2');
    CharPrintable('5');
    CharPrintable('6');
  }

  /** The edge diff: `remove edge("1", "2")`, `insert edge("5", "6")`,
      then `commit`; the line after it is never read. */
  lemma EdgeDiff()
    ensures DiffChanges([DiffLine("remove", "edge", ["1", "2"]), DiffLine("insert", "edge", ["5", "6"]), Commit + "\n", "junk"], map[])
      == Success(Changes(map["edge" + FactsSuffix := {"5" + Tab + "6"}], map["edge" + FactsSuffix := {"1" + Tab + "2"}]))
  {
    EdgeFields();
    RStripNewline(Commit);
    CommitExample("edge", "1", "2", "5", "6", Commit + "\n", "junk");
  }
}
