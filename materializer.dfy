/** The write phase of `applyDiffToInput`: every fact file the diff
    touches is rewritten from the input folder into the output folder
    (kept lines first, inserted tuples after), and every other fact file
    of the input folder is copied unchanged. A folder maps a file name to
    the file's lines, each line with the terminator it was read with. */
module Materializer {
  import opened Results
  import opened PyStrings
  import opened RelationMapper
  import opened DiffReader

  type Folder = map<String, seq<String>>

  const Newline: String := "\n"

  /** The lines of an input fact file that survive deletion, in their
      original order: those whose `rstrip()` is not a key to delete. */
  function KeptLines(lines: seq<String>, del: set<String>): seq<String>
    decreases |lines|
  {
    if lines == [] then []
    else
      var last := lines[|lines| - 1];
      KeptLines(lines[..|lines| - 1], del) + (if RStrip(last) in del then [] else [last])
  }

  /** The keys written one per line, each followed by a newline, in the
      given order. */
  function Terminated(keys: seq<String>): seq<String>
    decreases |keys|
  {
    if keys == [] then []
    else Terminated(keys[..|keys| - 1]) + [keys[|keys| - 1] + Newline]
  }

  /** Filtering distributes over concatenation, so kept lines keep their
      relative order. */
  lemma {:induction false} KeptLinesAppend(a: seq<String>, b: seq<String>, del: set<String>)
    ensures KeptLines(a + b, del) == KeptLines(a, del) + KeptLines(b, del)
    decreases |b|
  {
    if b == [] {
      assert a + b == a;
    } else {
      var init := b[..|b| - 1];
      KeptLinesAppend(a, init, del);
      assert (a + b)[..|a + b| - 1] == a + init;
      assert (a + b)[|a + b| - 1] == b[|b| - 1];
    }
  }

  /** A line is kept as often as it occurs in the input, unless its
      `rstrip()` is a key to delete, in which case it is dropped. */
  lemma {:induction false} KeptLinesCount(lines: seq<String>, del: set<String>, l: String)
    ensures multiset(KeptLines(lines, del))[l] == if RStrip(l) in del then 0 else multiset(lines)[l]
    decreases |lines|
  {
    if lines != [] {
      var init := lines[..|lines| - 1];
      KeptLinesCount(init, del, l);
      assert lines == init + [lines[|lines| - 1]];
    }
  }

  /** A written line occurs once for each time its key occurs in `keys`. */
  lemma {:induction false} TerminatedCount(keys: seq<String>, l: String)
    ensures multiset(Terminated(keys))[l] == if EndsWith(l, Newline) then multiset(keys)[l[..|l| - 1]] else 0
    decreases |keys|
  {
    if keys != [] {
      var init, k := keys[..|keys| - 1], keys[|keys| - 1];
      TerminatedCount(init, l);
      assert keys == init + [k];
      var w := k + Newline;
      assert w[..|w| - 1] == k;
      if EndsWith(l, Newline) {
        assert l == l[..|l| - 1] + Newline;
      }
    }
  }

  /** `out` is what the source writes for one touched file: the kept lines,
      then every key to insert exactly once, in some order. */
  ghost predicate Rewritten(lines: seq<String>, del: set<String>, ins: set<String>, out: seq<String>) {
    exists order: seq<String> :: multiset(order) == multiset(ins) && out == KeptLines(lines, del) + Terminated(order)
  }

  /** Lines 137-143: copy every line whose `rstrip()` is not to be deleted,
      then write every key to insert followed by a newline. The set is
      enumerated in an unspecified order, returned as `order`. */
  method RewriteFile(lines: seq<String>, del: set<String>, ins: set<String>)
    returns (out: seq<String>, ghost order: seq<String>)
    ensures multiset(order) == multiset(ins)
    ensures out == KeptLines(lines, del) + Terminated(order)
    ensures Rewritten(lines, del, ins, out)
  {
    out := [];
    for i := 0 to |lines|
      invariant out == KeptLines(lines[..i], del)
    {
      assert lines[..i + 1][..i] == lines[..i];
      if RStrip(lines[i]) !in del {
        out := out + [lines[i]];
      }
    }
    assert lines[..|lines|] == lines;
    var pending := ins;
    order := [];
    while pending != {}
      invariant pending <= ins
      invariant multiset(order) + multiset(pending) == multiset(ins)
      invariant out == KeptLines(lines, del) + Terminated(order)
      decreases |pending|
    {
      var key :| key in pending;
      assert multiset(pending) == multiset(pending - {key}) + multiset{key};
      out := out + [key + Newline];
      assert (order + [key])[..|order|] == order;
      order := order + [key];
      pending := pending - {key};
    }
  }

  /** How often one line occurs in the output of a rewrite. */
  lemma RewrittenCount(lines: seq<String>, del: set<String>, ins: set<String>, out: seq<String>, l: String)
    requires Rewritten(lines, del, ins, out)
    ensures multiset(out)[l] ==
      (if RStrip(l) in del then 0 else multiset(lines)[l])
      + (if EndsWith(l, Newline) && l[..|l| - 1] in ins then 1 else 0)
  {
    var order :| multiset(order) == multiset(ins) && out == KeptLines(lines, del) + Terminated(order);
    KeptLinesCount(lines, del, l);
    TerminatedCount(order, l);
  }

  /** The output of a rewrite, as a multiset of lines: each input line as
      often as it occurred unless its key is deleted, plus one line per key
      to insert. */
  lemma RewrittenCounts(lines: seq<String>, del: set<String>, ins: set<String>, out: seq<String>)
    requires Rewritten(lines, del, ins, out)
    ensures forall l :: (multiset(out)[l] ==
      (if RStrip(l) in del then 0 else multiset(lines)[l])
      + (if EndsWith(l, Newline) && l[..|l| - 1] in ins then 1 else 0))
  {
    forall l
      ensures multiset(out)[l] ==
        (if RStrip(l) in del then 0 else multiset(lines)[l])
        + (if EndsWith(l, Newline) && l[..|l| - 1] in ins then 1 else 0)
    {
      RewrittenCount(lines, del, ins, out, l);
    }
  }

  /** Every key to insert is in the output as a line of its own. */
  lemma InsertedPresent(lines: seq<String>, del: set<String>, ins: set<String>, out: seq<String>, k: String)
    requires Rewritten(lines, del, ins, out) && k in ins
    ensures k + Newline in out
  {
    var w := k + Newline;
    assert w[..|w| - 1] == k;
    RewrittenCount(lines, del, ins, out, w);
    assert multiset(out)[w] >= 1;
  }

  /** A line whose key is to be deleted survives only as a freshly inserted
      line. */
  lemma DeletedUnlessInserted(lines: seq<String>, del: set<String>, ins: set<String>, out: seq<String>, l: String)
    requires Rewritten(lines, del, ins, out) && l in out && RStrip(l) in del
    ensures EndsWith(l, Newline) && l[..|l| - 1] in ins
  {
    RewrittenCount(lines, del, ins, out, l);
    assert multiset(out)[l] >= 1;
  }

  /** After the touched files in `done` were handled: those present in
      the input are rewritten into `out`, everything else is as in
      `output`. */
  ghost predicate MaterializedOver(input: Folder, ch: Changes, output: Folder, out: Folder, done: set<String>) {
    && (forall f :: f in out <==> f in output || (f in done && f in input))
    && (forall f :: f in done && f in input ==>
          Rewritten(input[f], Lookup(ch.toDelete, f), Lookup(ch.toInsert, f), out[f]))
    && (forall f :: f in output && !(f in done && f in input) ==> out[f] == output[f])
  }

  /** One more touched file handled. */
  lemma MaterializeStep(input: Folder, ch: Changes, output: Folder, out: Folder, done: set<String>, rel: String, lines: seq<String>)
    requires MaterializedOver(input, ch, output, out, done) && rel !in done
    requires rel in input ==> Rewritten(input[rel], Lookup(ch.toDelete, rel), Lookup(ch.toInsert, rel), lines)
    ensures MaterializedOver(input, ch, output, if rel in input then out[rel := lines] else out, done + {rel})
  {
  }

  /** Lines 130-143: for every touched file, in an unspecified order, skip
      it when the input folder lacks it, and otherwise write its rewrite to
      the output folder. */
  method Materialize(input: Folder, ch: Changes, output: Folder) returns (out: Folder)
    ensures MaterializedOver(input, ch, output, out, Touched(ch))
  {
    out := output;
    var touched := Touched(ch);
    var pending, done := touched, {};
    while pending != {}
      invariant pending <= touched && done == touched - pending
      invariant MaterializedOver(input, ch, output, out, done)
      decreases |pending|
    {
      var rel :| rel in pending;
      if rel in input {
        var lines, order := RewriteFile(input[rel], Lookup(ch.toDelete, rel), Lookup(ch.toInsert, rel));
        MaterializeStep(input, ch, output, out, done, rel, lines);
        out := out[rel := lines];
      } else {
        MaterializeStep(input, ch, output, out, done, rel, []);
      }
      assert done + {rel} == touched - (pending - {rel});
      pending, done := pending - {rel}, done + {rel};
    }
    assert done == touched;
  }

  /** The fact files the copy loop considers: names ending in `.facts` or
      `.txt`. */
  predicate IsFactFile(name: String) {
    EndsWith(name, FactsSuffix) || EndsWith(name, ".txt")
  }

  /** After the input files in `done` were considered: the untouched fact
      files among them are copied into `out`, everything else is as in
      `output`. */
  ghost predicate CopiedOver(input: Folder, touched: set<String>, output: Folder, out: Folder, done: set<String>) {
    && (forall f :: f in out <==> f in output || (f in done && f in input && IsFactFile(f) && f !in touched))
    && (forall f :: f in done && f in input && IsFactFile(f) && f !in touched ==> out[f] == input[f])
    && (forall f :: f in output && !(f in done && f in input && IsFactFile(f) && f !in touched) ==> out[f] == output[f])
  }

  /** One more input file considered. */
  lemma CopyStep(input: Folder, touched: set<String>, output: Folder, out: Folder, done: set<String>, file: String)
    requires CopiedOver(input, touched, output, out, done) && file !in done && file in input
    ensures CopiedOver(input, touched, output,
      if IsFactFile(file) && file !in touched then out[file := input[file]] else out, done + {file})
  {
  }

  /** Lines 147-154: every fact file of the input folder that the diff does
      not touch is copied to the output folder unchanged. */
  method CopyUntouched(input: Folder, touched: set<String>, output: Folder) returns (out: Folder)
    ensures CopiedOver(input, touched, output, out, input.Keys)
  {
    out := output;
    var listed := input.Keys;
    var pending, done := listed, {};
    while pending != {}
      invariant pending <= listed && done == listed - pending
      invariant CopiedOver(input, touched, output, out, done)
      decreases |pending|
    {
      var file :| file in pending;
      CopyStep(input, touched, output, out, done, file);
      if IsFactFile(file) && file !in touched {
        out := out[file := input[file]];
      }
      assert done + {file} == listed - (pending - {file});
      pending, done := pending - {file}, done + {file};
    }
    assert done == listed;
  }

  /** The output folder after applying a diff that reads without error:
      touched files present in the input are rewritten, other fact files
      of the input are copied, and every other name keeps what the output
      folder held before. */
  ghost predicate Applied(input: Folder, ch: Changes, prior: Folder, out: Folder) {
    && (forall f :: f in out <==> f in prior || (f in input && (f in Touched(ch) || IsFactFile(f))))
    && (forall f :: f in input && f in Touched(ch) ==>
          Rewritten(input[f], Lookup(ch.toDelete, f), Lookup(ch.toInsert, f), out[f]))
    && (forall f :: f in input && IsFactFile(f) && f !in Touched(ch) ==> out[f] == input[f])
    && (forall f :: f in prior && !(f in input && (f in Touched(ch) || IsFactFile(f))) ==> out[f] == prior[f])
  }

  /** `applyDiffToInput`: read the declarations, read the diff up to its
      first `commit`, then rewrite the touched files and copy the others.
      A malformed line before `commit` aborts before anything is written. */
  method ApplyDiffToInput(program: seq<String>, matcher: Matcher, diffs: seq<String>, input: Folder, output: Folder)
    returns (r: Result<Folder, DiffError>)
    ensures r.Failure? <==> DiffChanges(diffs, MappingOf(program, matcher).relationToFile).Failure?
    ensures r.Failure? ==> r.error == DiffChanges(diffs, MappingOf(program, matcher).relationToFile).error
    ensures r.Success? ==> Applied(input, DiffChanges(diffs, MappingOf(program, matcher).relationToFile).value, output, r.value)
  {
    var fileToRelation, relationToFile := BuildMapping(program, matcher);
    var read := ReadDiff(diffs, relationToFile);
    if read.Failure? {
      return Failure(read.error);
    }
    var ch := read.value;
    var written := Materialize(input, ch, output);
    var copied := CopyUntouched(input, Touched(ch), written);
    r := Success(copied);
  }
}

module MaterializerExample {
  import opened PyStrings
  import opened Materializer

  /** Removing `1\t2` from and inserting `5\t6` into a file holding
      `1\t2` and `3\t4` leaves `3\t4` followed by `5\t6`. */
  lemma EdgeExample(out: seq<String>)
    requires Rewritten(["1\t2\n", "3\t4\n"], {"1\t2"}, {"5\t6"}, out)
    ensures out == ["3\t4\n", "5\t6\n"]
  {
    var order :| multiset(order) == multiset({"5\t6"}) && out == KeptLines(["1\t2\n", "3\t4\n"], {"1\t2"}) + Terminated(order);
    assert |order| == 1 by {
      assert |multiset(order)| == |order|;
    }
    assert order[0] in multiset(order);
    assert order == ["5\t6"];
    assert order[..0] == [];
    assert "5\t6" + Newline == "5\t6\n";
    assert Terminated(order) == ["5\t6\n"];
    var a, b := "1\t2", "3\t4";
    RStripNewline(a);
    RStripNewline(b);
    assert a + "\n" == "1\t2\n" && b + "\n" == "3\t4\n";
    assert RStrip(a) == a && RStrip(b) == b;
    var lines := ["1\t2\n", "3\t4\n"];
    assert lines[..1] == ["1\t2\n"] && lines[..1][..0] == [];
    assert KeptLines(lines[..1], {a}) == [];
    assert KeptLines(lines, {a}) == ["3\t4\n"];
  }
}
