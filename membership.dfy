/** Reading a fact file back: `loadRelation` (the set of tuples of the
    stripped, non-blank lines) and `tuplesInRelation` (whether every
    candidate tuple is the tab-split of some right-stripped line). */
module Membership {
  import opened PyStrings
  import opened TupleCodec
  import opened Materializer

  /** `loadRelation`: every non-blank line, stripped and split at tabs.
      A blank line contributes nothing, so the tuple `[""]` of one empty
      field, which only a blank line could split to, is never loaded. */
  function LoadRelation(lines: seq<String>): (r: set<Tuple>)
    ensures forall t :: t in r ==> TabKey(t) != []
    ensures [""] !in r
  {
    var r := set i | 0 <= i < |lines| && Strip(lines[i]) != [] :: TabSplit(Strip(lines[i]));
    assert forall i :: 0 <= i < |lines| && Strip(lines[i]) != [] ==> TabKey(TabSplit(Strip(lines[i]))) != [] by {
      forall i | 0 <= i < |lines| && Strip(lines[i]) != []
        ensures TabKey(TabSplit(Strip(lines[i]))) != []
      {
        JoinSplit(Strip(lines[i]), Tab);
      }
    }
    assert TabKey([""]) == [];
    r
  }

  /** A blank line leaves what `loadRelation` returns unchanged. */
  lemma BlankLineIgnored(lines: seq<String>, blank: String)
    requires Strip(blank) == []
    ensures LoadRelation(lines + [blank]) == LoadRelation(lines)
  {
    var ext := lines + [blank];
    assert forall i :: 0 <= i < |lines| ==> ext[i] == lines[i];
    assert ext[|lines|] == blank;
  }

  /** The tuples `tuplesInRelation` sees: every line, blank or not,
      right-stripped and split at tabs. */
  function Observed(lines: seq<String>): set<Tuple> {
    set i | 0 <= i < |lines| :: TabSplit(RStrip(lines[i]))
  }

  /** `tuplesInRelation`: one pass over the lines collects the candidates
      seen; the answer is whether all candidates were seen. */
  method TuplesInRelation(lines: seq<String>, tups: set<Tuple>) returns (r: bool)
    ensures r <==> forall t :: t in tups ==> exists i :: 0 <= i < |lines| && TabSplit(RStrip(lines[i])) == t
    ensures tups == {} ==> r
  {
    var found: set<Tuple> := {};
    for i := 0 to |lines|
      invariant found <= tups
      invariant found == tups * Observed(lines[..i])
    {
      assert Observed(lines[..i + 1]) == Observed(lines[..i]) + {TabSplit(RStrip(lines[i]))} by {
        assert forall j :: 0 <= j < i ==> lines[..i + 1][j] == lines[..i][j];
        assert lines[..i + 1][i] == lines[i];
      }
      var line := RStrip(lines[i]);
      var tup := TabSplit(line);
      if tup in tups {
        found := found + {tup};
      }
    }
    assert lines[..|lines|] == lines;
    r := tups == found;
    if !r {
      var t :| t in tups && t !in found;
      assert forall i :: 0 <= i < |lines| ==> TabSplit(RStrip(lines[i])) in Observed(lines);
    }
  }

  /** A tuple whose tab-joined line `tuplesInRelation` splits back to it:
      at least one field, no tab inside a field, and a last field that is
      not empty and does not end in white space. */
  predicate Seen(t: Tuple) {
    && |t| >= 1
    && (forall i :: 0 <= i < |t| ==> '\t' !in t[i])
    && t[|t| - 1] != [] && !IsSpace(t[|t| - 1][|t[|t| - 1]| - 1])
  }

  /** A tuple whose tab-joined line `loadRelation` also reads back: in
      addition, a first field that is not empty and does not start with
      white space. */
  predicate Loadable(t: Tuple) {
    Seen(t) && t[0] != [] && !IsSpace(t[0][0])
  }

  /** A written tuple line right-strips to its key, which splits back to
      the tuple. */
  lemma SeenLine(t: Tuple)
    requires Seen(t)
    ensures RStrip(TabKey(t) + Newline) == TabKey(t)
    ensures TabSplit(TabKey(t)) == t
  {
    var k := TabKey(t);
    JoinLast(t, Tab);
    RStripNewline(k);
    TabRoundTrip(t);
  }

  /** A written tuple line of a loadable tuple strips to its key, which is
      not blank. */
  lemma LoadLine(t: Tuple)
    requires Loadable(t)
    ensures Strip(TabKey(t) + Newline) == TabKey(t) != []
  {
    var k := TabKey(t);
    SeenLine(t);
    FirstPieceIsPrefix(t, Tab);
    assert k[0] == t[0][0];
    JoinLast(t, Tab);
    StripNoEdgeSpace(k);
  }

  /** After a rewrite, every inserted tuple is seen by the membership
      check, provided it splits back from its line. */
  lemma InsertedSeen(lines: seq<String>, del: set<String>, ins: set<String>, out: seq<String>, t: Tuple)
    requires Rewritten(lines, del, ins, out) && TabKey(t) in ins && Seen(t)
    ensures t in Observed(out)
  {
    InsertedPresent(lines, del, ins, out, TabKey(t));
    var i :| 0 <= i < |out| && out[i] == TabKey(t) + Newline;
    SeenLine(t);
  }

  /** After a rewrite, every inserted tuple is loaded from the file,
      provided its line neither starts nor ends in white space. */
  lemma InsertedLoaded(lines: seq<String>, del: set<String>, ins: set<String>, out: seq<String>, t: Tuple)
    requires Rewritten(lines, del, ins, out) && TabKey(t) in ins && Loadable(t)
    ensures t in LoadRelation(out)
  {
    InsertedPresent(lines, del, ins, out, TabKey(t));
    var i :| 0 <= i < |out| && out[i] == TabKey(t) + Newline;
    LoadLine(t);
    SeenLine(t);
  }

  /** After a rewrite, a deleted tuple is no longer seen by the membership
      check, unless a key that right-strips to the same text was inserted. */
  lemma DeletedNotObserved(lines: seq<String>, del: set<String>, ins: set<String>, out: seq<String>, t: Tuple)
    requires Rewritten(lines, del, ins, out) && TabKey(t) in del
    requires forall k :: k in ins ==> RStrip(k) != TabKey(t)
    ensures t !in Observed(out)
  {
    forall i | 0 <= i < |out|
      ensures TabSplit(RStrip(out[i])) != t
    {
      var l := out[i];
      if RStrip(l) in del {
        DeletedUnlessInserted(lines, del, ins, out, l);
        assert l == l[..|l| - 1] + Newline;
        RStripNewline(l[..|l| - 1]);
      }
      JoinSplit(RStrip(l), Tab);
    }
  }

  /** On a file of written tuple lines the two readers agree. */
  lemma ReadersAgree(lines: seq<String>)
    requires forall i :: 0 <= i < |lines| ==> Strip(lines[i]) == RStrip(lines[i]) != []
    ensures LoadRelation(lines) == Observed(lines)
  {
  }

  /** A line whose tuple has an empty last field right-strips to less than
      its key, so removing that tuple leaves the line in place. */
  lemma TrailingEmptyFieldSurvives(t: Tuple, lines: seq<String>, ins: set<String>, out: seq<String>)
    requires |t| >= 2 && t[|t| - 1] == []
    requires Rewritten(lines, {TabKey(t)}, ins, out) && TabKey(t) + Newline in lines
    ensures TabKey(t) + Newline in out
  {
    var k := TabKey(t);
    JoinEmptyLast(t, Tab);
    assert RStrip(k + Newline) != k by {
      RStripNewline(k);
      assert k[|k| - 1] == '\t';
    }
    RewrittenCount(lines, {k}, ins, out, k + Newline);
    assert multiset(out)[k + Newline] >= 1;
  }
}
