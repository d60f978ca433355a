/** The relation mapper, `get_input_relation_names`: scans the Datalog
    program's lines and records, for every `.input` directive carrying a
    `filename="..."` attribute, which file backs which relation, both ways.
    The regular expression is abstracted as a `Matcher`. */
module RelationMapper {
  import opened Results
  import opened PyStrings

  /** The source's `input_pattern.match(line)`: `Some((relName, fileName))`
      (groups 1 and 2) when the line is an input directive with a file
      name, `None` otherwise. */
  type Matcher = String -> Option<(String, String)>

  datatype Mapping = Mapping(fileToRelation: map<String, String>, relationToFile: map<String, String>)

  /** The two dictionaries after the given lines, processed in order. */
  function MappingOf(lines: seq<String>, matcher: Matcher): Mapping
    decreases |lines|
  {
    if lines == [] then Mapping(map[], map[])
    else
      var m := MappingOf(lines[..|lines| - 1], matcher);
      match matcher(lines[|lines| - 1])
      case None => m
      case Some((rel, file)) => Mapping(m.fileToRelation[file := rel], m.relationToFile[rel := file])
  }

  /** The loop of `get_input_relation_names`: one line at a time, a matching
      line overwrites both dictionaries' entries for its relation and file. */
  method BuildMapping(lines: seq<String>, matcher: Matcher)
    returns (fileToRelation: map<String, String>, relationToFile: map<String, String>)
    ensures Mapping(fileToRelation, relationToFile) == MappingOf(lines, matcher)
  {
    fileToRelation, relationToFile := map[], map[];
    for i := 0 to |lines|
      invariant Mapping(fileToRelation, relationToFile) == MappingOf(lines[..i], matcher)
    {
      assert lines[..i + 1][..i] == lines[..i];
      var found := matcher(lines[i]);
      if found.Some? {
        var relName, fileName := found.value.0, found.value.1;
        fileToRelation := fileToRelation[fileName := relName];
        relationToFile := relationToFile[relName := fileName];
      }
    }
    assert lines[..|lines|] == lines;
  }

  predicate MatchesRelation(matcher: Matcher, line: String, rel: String) {
    matcher(line).Some? && matcher(line).value.0 == rel
  }

  predicate MatchesFile(matcher: Matcher, line: String, file: String) {
    matcher(line).Some? && matcher(line).value.1 == file
  }

  /** A relation (a file) has an entry exactly when some line matches with
      that relation (that file); lines that do not match are ignored. */
  lemma {:induction false} MappingKeys(lines: seq<String>, matcher: Matcher)
    ensures forall rel :: rel in MappingOf(lines, matcher).relationToFile <==>
      exists i :: 0 <= i < |lines| && MatchesRelation(matcher, lines[i], rel)
    ensures forall file :: file in MappingOf(lines, matcher).fileToRelation <==>
      exists i :: 0 <= i < |lines| && MatchesFile(matcher, lines[i], file)
    decreases |lines|
  {
    if lines != [] {
      var init := lines[..|lines| - 1];
      MappingKeys(init, matcher);
      forall rel
        ensures rel in MappingOf(lines, matcher).relationToFile <==>
          exists i :: 0 <= i < |lines| && MatchesRelation(matcher, lines[i], rel)
      {
        if exists i :: 0 <= i < |lines| && MatchesRelation(matcher, lines[i], rel) {
          var i :| 0 <= i < |lines| && MatchesRelation(matcher, lines[i], rel);
          if i < |lines| - 1 {
            assert init[i] == lines[i];
          }
        }
        if exists i :: 0 <= i < |init| && MatchesRelation(matcher, init[i], rel) {
          var i :| 0 <= i < |init| && MatchesRelation(matcher, init[i], rel);
          assert lines[i] == init[i];
        }
      }
      forall file
        ensures file in MappingOf(lines, matcher).fileToRelation <==>
          exists i :: 0 <= i < |lines| && MatchesFile(matcher, lines[i], file)
      {
        if exists i :: 0 <= i < |lines| && MatchesFile(matcher, lines[i], file) {
          var i :| 0 <= i < |lines| && MatchesFile(matcher, lines[i], file);
          if i < |lines| - 1 {
            assert init[i] == lines[i];
          }
        }
        if exists i :: 0 <= i < |init| && MatchesFile(matcher, init[i], file) {
          var i :| 0 <= i < |init| && MatchesFile(matcher, init[i], file);
          assert lines[i] == init[i];
        }
      }
    }
  }

  /** Later matches overwrite earlier ones: the last line that matches a
      relation decides its file, and the last line that matches a file
      decides its relation. */
  lemma {:induction false} LastMatchWins(lines: seq<String>, matcher: Matcher, i: int)
    requires 0 <= i < |lines| && matcher(lines[i]).Some?
    ensures var rel, file := matcher(lines[i]).value.0, matcher(lines[i]).value.1;
      var m := MappingOf(lines, matcher);
      && ((forall j :: i < j < |lines| ==> !MatchesRelation(matcher, lines[j], rel)) ==>
            rel in m.relationToFile && m.relationToFile[rel] == file)
      && ((forall j :: i < j < |lines| ==> !MatchesFile(matcher, lines[j], file)) ==>
            file in m.fileToRelation && m.fileToRelation[file] == rel)
    decreases |lines|
  {
    var init := lines[..|lines| - 1];
    if i < |lines| - 1 {
      assert init[i] == lines[i];
      LastMatchWins(init, matcher, i);
      var rel, file := matcher(lines[i]).value.0, matcher(lines[i]).value.1;
      if forall j :: i < j < |lines| ==> !MatchesRelation(matcher, lines[j], rel) {
        assert forall j :: i < j < |init| ==> init[j] == lines[j];
      }
      if forall j :: i < j < |lines| ==> !MatchesFile(matcher, lines[j], file) {
        assert forall j :: i < j < |init| ==> init[j] == lines[j];
      }
    }
  }

  /** Some line matches with exactly this relation and file. */
  ghost predicate Declared(lines: seq<String>, matcher: Matcher, rel: String, file: String) {
    exists i :: 0 <= i < |lines| && matcher(lines[i]) == Some((rel, file))
  }

  /** Every entry was recorded, as a pair, by some matching line. */
  lemma {:induction false} EntriesFromLines(lines: seq<String>, matcher: Matcher)
    ensures forall rel :: rel in MappingOf(lines, matcher).relationToFile ==>
      Declared(lines, matcher, rel, MappingOf(lines, matcher).relationToFile[rel])
    ensures forall file :: file in MappingOf(lines, matcher).fileToRelation ==>
      Declared(lines, matcher, MappingOf(lines, matcher).fileToRelation[file], file)
    decreases |lines|
  {
    if lines != [] {
      var init := lines[..|lines| - 1];
      var last := |lines| - 1;
      EntriesFromLines(init, matcher);
      var m0, m := MappingOf(init, matcher), MappingOf(lines, matcher);
      forall rel, file | Declared(init, matcher, rel, file)
        ensures Declared(lines, matcher, rel, file)
      {
        var i :| 0 <= i < |init| && matcher(init[i]) == Some((rel, file));
        assert lines[i] == init[i];
      }
      if matcher(lines[last]).Some? {
        var rel, file := matcher(lines[last]).value.0, matcher(lines[last]).value.1;
        assert Declared(lines, matcher, rel, file);
      }
    }
  }

  /** Every relation is declared with one file and every file with one
      relation, across all matching lines. */
  ghost predicate Consistent(lines: seq<String>, matcher: Matcher) {
    forall i, j :: 0 <= i < |lines| && 0 <= j < |lines| && matcher(lines[i]).Some? && matcher(lines[j]).Some? ==>
      (matcher(lines[i]).value.0 == matcher(lines[j]).value.0 <==> matcher(lines[i]).value.1 == matcher(lines[j]).value.1)
  }

  /** When the declarations are consistent the two dictionaries are
      inverses of each other. */
  lemma {:induction false} MappingsInverse(lines: seq<String>, matcher: Matcher)
    requires Consistent(lines, matcher)
    ensures forall rel :: rel in MappingOf(lines, matcher).relationToFile ==>
      && MappingOf(lines, matcher).relationToFile[rel] in MappingOf(lines, matcher).fileToRelation
      && MappingOf(lines, matcher).fileToRelation[MappingOf(lines, matcher).relationToFile[rel]] == rel
    ensures forall file :: file in MappingOf(lines, matcher).fileToRelation ==>
      && MappingOf(lines, matcher).fileToRelation[file] in MappingOf(lines, matcher).relationToFile
      && MappingOf(lines, matcher).relationToFile[MappingOf(lines, matcher).fileToRelation[file]] == file
    decreases |lines|
  {
    if lines != [] {
      var init := lines[..|lines| - 1];
      var last := |lines| - 1;
      assert Consistent(init, matcher) by {
        assert forall i :: 0 <= i < |init| ==> init[i] == lines[i];
      }
      MappingsInverse(init, matcher);
      EntriesFromLines(init, matcher);
      var m0, m := MappingOf(init, matcher), MappingOf(lines, matcher);
      if matcher(lines[last]).Some? {
        var rel, file := matcher(lines[last]).value.0, matcher(lines[last]).value.1;
        assert m.relationToFile == m0.relationToFile[rel := file];
        assert m.fileToRelation == m0.fileToRelation[file := rel];
        forall rel' | rel' in m.relationToFile
          ensures m.relationToFile[rel'] in m.fileToRelation && m.fileToRelation[m.relationToFile[rel']] == rel'
        {
          if rel' != rel {
            assert Declared(init, matcher, rel', m0.relationToFile[rel']);
            var i :| 0 <= i < |init| && matcher(init[i]) == Some((rel', m0.relationToFile[rel']));
            assert lines[i] == init[i];
            assert m0.relationToFile[rel'] != file;
          }
        }
        forall file' | file' in m.fileToRelation
          ensures m.fileToRelation[file'] in m.relationToFile && m.relationToFile[m.fileToRelation[file']] == file'
        {
          if file' != file {
            assert Declared(init, matcher, m0.fileToRelation[file'], file');
            var i :| 0 <= i < |init| && matcher(init[i]) == Some((m0.fileToRelation[file'], file'));
            assert lines[i] == init[i];
            assert m0.fileToRelation[file'] != rel;
          }
        }
      }
    }
  }
}
