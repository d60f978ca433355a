/** The tuple codec: Souffle's textual tuple notation `rel("f1", "f2")`
    (`printSouffleTuple`, `parseSouffleTuple`) and the tab-joined form a
    tuple takes in a fact file. */
module TupleCodec {
  import opened Results
  import opened PyStrings

  /** A relation tuple: its fields in order. */
  type Tuple = seq<String>

  /** The separator between fields in the textual notation. */
  const FieldSep: String := ", "

  /** The separator between fields in a fact file. */
  const Tab: String := "\t"

  datatype CodecError = MissingParen(text: String)

  function Quote(f: String): String {
    "\"" + f + "\""
  }

  function QuoteAll(t: Tuple): seq<String> {
    seq(|t|, i requires 0 <= i < |t| => Quote(t[i]))
  }

  /** `printSouffleTuple(relName, t)`: every field quoted, fields separated
      by `", "`, the whole wrapped in `relName(` and `)`. */
  function PrintTuple(relName: String, t: Tuple): (s: String)
    ensures EndsWith(s, ")")
    ensures '(' !in relName ==> SplitOnce(s, '(') == Some((relName, Join(QuoteAll(t), FieldSep) + ")"))
  {
    var s := relName + "(" + Join(QuoteAll(t), FieldSep) + ")";
    assert s == relName + ['('] + (Join(QuoteAll(t), FieldSep) + ")");
    if '(' in relName then s
    else SplitOnceAt(relName, '(', Join(QuoteAll(t), FieldSep) + ")"); s
  }

  /** One field of `parseSouffleTuple` after `strip()`: a quoted field loses
      its quotes and is stripped again; anything else passes through. */
  function Unquote(x: String): String {
    if |x| >= 1 && x[0] == '"' && x[|x| - 1] == '"' then
      (if |x| >= 2 then Strip(x[1..|x| - 1]) else [])
    else x
  }

  function DecodeField(piece: String): String {
    Unquote(Strip(piece))
  }

  /** The text `parseSouffleTuple` splits into fields: what follows the
      first `(`, with every trailing `)` removed. */
  function FieldText(rest: String): String {
    RStripBy(rest, IsCloseParen)
  }

  /** `parseSouffleTuple(s)`: the relation name is the text before the
      first `(`; the fields are the `", "`-separated pieces of the rest,
      each decoded by `DecodeField`. A string without `(` fails (the source
      cannot unpack two values from the split). */
  function ParseTuple(s: String): (r: Result<(String, Tuple), CodecError>)
    ensures r.Failure? <==> '(' !in s
    ensures r.Success? ==> '(' !in r.value.0 && StartsWith(s, r.value.0 + "(")
  {
    match SplitOnce(s, '(')
    case None => Failure(MissingParen(s))
    case Some((relName, rest)) =>
      assert s == relName + "(" + rest;
      var pieces := Split(FieldText(rest), FieldSep);
      Success((relName, seq(|pieces|, i requires 0 <= i < |pieces| => DecodeField(pieces[i]))))
  }

  /** How `parseSouffleTuple` decodes a string whose first `(` follows
      `relName`. */
  lemma ParseAt(s: String, relName: String, rest: String)
    requires '(' !in relName && s == relName + "(" + rest
    ensures var pieces := Split(FieldText(rest), FieldSep);
      ParseTuple(s) == Success((relName, seq(|pieces|, i requires 0 <= i < |pieces| => DecodeField(pieces[i]))))
  {
    SplitOnceAt(relName, '(', rest);
    assert s == relName + ['('] + rest;
  }

  /** The field count is one more than the number of `", "` separators in
      the field text; the fields come from separator-free pieces that join
      back into that text. */
  lemma ParseFieldCount(s: String, relName: String, rest: String)
    requires '(' !in relName && s == relName + "(" + rest
    ensures ParseTuple(s).Success? && ParseTuple(s).value.0 == relName
    ensures |ParseTuple(s).value.1| == Count(FieldText(rest), FieldSep) + 1
    ensures var pieces := Split(FieldText(rest), FieldSep);
      && |ParseTuple(s).value.1| == |pieces|
      && Join(pieces, FieldSep) == FieldText(rest)
      && forall i :: 0 <= i < |pieces| ==> !Contains(pieces[i], FieldSep)
  {
    SplitOnceAt(relName, '(', rest);
    assert s == relName + ['('] + rest;
    JoinSplit(FieldText(rest), FieldSep);
    SplitPiecesFree(FieldText(rest), FieldSep);
    SplitCount(FieldText(rest), FieldSep);
  }

  /** A field the textual notation carries unchanged through a round trip. */
  predicate Printable(f: String) {
    !Contains(f, FieldSep) && Strip(f) == f
  }

  lemma QuoteFree(f: String)
    requires !Contains(f, FieldSep)
    ensures !Contains(Quote(f), FieldSep)
  {
    var q := Quote(f);
    forall j | OccursAt(q, FieldSep, j)
      ensures false
    {
      assert q[j] == ',' && q[j + 1] == ' ' by {
        assert q[j..j + 2] == FieldSep;
      }
      if 0 < j && j + 2 < |q| {
        assert q[j..j + 2] == f[j - 1..j + 1];
        assert OccursAt(f, FieldSep, j - 1);
      }
    }
  }

  lemma UnquoteQuote(f: String)
    requires Strip(f) == f
    ensures DecodeField(Quote(f)) == f
  {
    var q := Quote(f);
    StripNoEdgeSpace(q);
    assert q[1..|q| - 1] == f;
  }

  /** The last character of a join is that of its last, non-empty part. */
  lemma {:induction false} JoinLast(parts: seq<String>, sep: String)
    requires |parts| >= 1 && parts[|parts| - 1] != []
    ensures var j := Join(parts, sep); j != [] && j[|j| - 1] == parts[|parts| - 1][|parts[|parts| - 1]| - 1]
    decreases |parts|
  {
    if |parts| > 1 {
      var tail := parts[1..];
      JoinLast(tail, sep);
      assert tail[|tail| - 1] == parts[|parts| - 1];
      var j, jt := Join(parts, sep), Join(tail, sep);
      assert j == (parts[0] + sep) + jt;
      assert j[|j| - 1] == jt[|jt| - 1];
    }
  }

  /** Printing then parsing gives back the relation name and the fields,
      provided the name has no `(`, there is at least one field, and no
      field contains `", "` or has white space at either end. */
  lemma ParsePrintRoundTrip(relName: String, t: Tuple)
    requires '(' !in relName && |t| >= 1
    requires forall i :: 0 <= i < |t| ==> Printable(t[i])
    ensures ParseTuple(PrintTuple(relName, t)) == Success((relName, t))
  {
    var quoted := QuoteAll(t);
    var joined := Join(quoted, FieldSep);
    var rest := joined + ")";
    JoinLast(quoted, FieldSep);
    assert FieldText(rest) == joined by {
      assert rest[..|rest| - 1] == joined;
    }
    forall i | 0 <= i < |quoted|
      ensures !Contains(quoted[i], FieldSep)
    {
      QuoteFree(t[i]);
    }
    assert HeadUnique(FieldSep) by {
      assert FieldSep[1..] == " ";
    }
    SplitJoin(quoted, FieldSep);
    ParseAt(PrintTuple(relName, t), relName, rest);
    var fields := seq(|quoted|, i requires 0 <= i < |quoted| => DecodeField(quoted[i]));
    assert ParseTuple(PrintTuple(relName, t)) == Success((relName, fields));
    forall i | 0 <= i < |t|
      ensures fields[i] == t[i]
    {
      UnquoteQuote(t[i]);
    }
    assert fields == t;
  }

  /** `"\t".join(t)`: a tuple as a fact-file line, without its terminator.
      Also the key under which the diff reader records a tuple. */
  function TabKey(t: Tuple): String {
    Join(t, Tab)
  }

  /** `line.split('\t')` */
  function TabSplit(line: String): Tuple {
    Split(line, Tab)
  }

  /** A tuple with at least one field and no tab inside a field survives
      being written tab-joined and read back with `split('\t')`. */
  lemma TabRoundTrip(t: Tuple)
    requires |t| >= 1 && forall i :: 0 <= i < |t| ==> '\t' !in t[i]
    ensures TabSplit(TabKey(t)) == t
  {
    forall i | 0 <= i < |t|
      ensures !Contains(t[i], Tab)
    {
      forall j | OccursAt(t[i], Tab, j)
        ensures false
      {
        OccursAtChar(t[i], '\t', j);
      }
    }
    SplitJoin(t, Tab);
  }

  /** Reading a line back with `split('\t')` and joining the pieces again
      gives the line: two lines with the same fields are the same line. */
  lemma TabSplitInjective(a: String, b: String)
    requires TabSplit(a) == TabSplit(b)
    ensures a == b
  {
    JoinSplit(a, Tab);
    JoinSplit(b, Tab);
  }
}
