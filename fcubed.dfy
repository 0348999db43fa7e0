/**
 * FCubedParser: the flat `key=value;` settings format.
 *
 * WriteFCubed renders one line per entry, dispatching on the runtime type of
 * the value; ReadFCubed splits the text into lines and each line at '=' and
 * reads the value back. Both are modelled as written, including what they do
 * not do: quotes are never stripped on reading, so no Bool entry is ever read
 * back and a quoted character makes reading fail.
 */
module FCubed {
  import opened Wrappers
  import opened Text
  import opened Values
  import opened ValueSets

  // ---------------------------------------------------------------------------
  // Writing

  /** The key as it is written: unchanged before a string, lower-cased before anything else. */
  function KeyText(e: Entry): string
  {
    if e.value.VString? then e.key else LowerStr(e.key)
  }

  /** A non-null value as it is written after the '='. */
  function ValueText(v: Value): string
    requires !v.VNull?
  {
    match v
    case VString(s) => "\"" + s + "\""
    case VChar(c) => "'" + [c] + "'"
    case VBool(b) => "\"" + BoolToString(b) + "\""
    case VInt(i) => IntToString(i as int)
    case VOther => "[NONE]"
  }

  /** The line WriteFCubed writes for an entry with a non-null value, by runtime type. */
  function Line(e: Entry): (line: string)
    requires !e.value.VNull?
  {
    match e.value
    case VString(s) => e.key + "=\"" + s + "\";"
    case VChar(c) => LowerStr(e.key) + "='" + [c] + "';"
    case VBool(b) => LowerStr(e.key) + "=\"" + BoolToString(b) + "\";"
    case VInt(i) => LowerStr(e.key) + "=" + IntToString(i as int) + ";"
    case VOther => LowerStr(e.key) + "=[NONE];"
  }

  /** Every line is the written key, '=', the written value and ';'. */
  lemma LineShape(e: Entry)
    requires !e.value.VNull?
    ensures Line(e) == KeyText(e) + "=" + ValueText(e.value) + ";"
  {
    var k := KeyText(e);
    match e.value
    case VString(s) =>
      assert k + "=\"" + s + "\";" == k + "=" + ("\"" + s + "\"") + ";";
    case VChar(c) =>
      assert k + "='" + [c] + "';" == k + "=" + ("'" + [c] + "'") + ";";
    case VBool(b) =>
      assert k + "=\"" + BoolToString(b) + "\";" == k + "=" + ("\"" + BoolToString(b) + "\"") + ";";
    case VInt(i) =>
    case VOther =>
      assert k + "=[NONE];" == k + "=" + "[NONE]" + ";";
  }

  predicate NoNulls(es: seq<Entry>)
  {
    forall i :: 0 <= i < |es| ==> !es[i].value.VNull?
  }

  function Lines(es: seq<Entry>): (ls: seq<string>)
    requires NoNulls(es)
  {
    seq(|es|, i requires 0 <= i < |es| => Line(es[i]))
  }

  /**
   * What WriteFCubed returns: the lines of the entries joined by newlines,
   * or the NullReferenceException GetType throws on a null value.
   */
  function Encode(es: seq<Entry>): Result<string>
  {
    if NoNulls(es) then Success(Join(Lines(es), "\n")) else Failure(NullReference)
  }

  lemma LinesSnoc(es: seq<Entry>, i: nat)
    requires i < |es| && NoNulls(es[..i]) && !es[i].value.VNull?
    ensures NoNulls(es[..i + 1])
    ensures Lines(es[..i + 1]) == Lines(es[..i]) + [Line(es[i])]
    ensures |Line(es[i])| >= 1
  {
    assert es[..i + 1] == es[..i] + [es[i]];
  }

  /** WriteFCubed, accumulating the text line by line as the source does. */
  method WriteFCubed(sets: seq<ValueSet>) returns (r: Result<string>)
    ensures r == Encode(Views(sets))
  {
    var s := "";
    ghost var es := Views(sets);
    for i := 0 to |sets|
      invariant NoNulls(es[..i])
      invariant s == Join(Lines(es[..i]), "\n")
      invariant s == "" <==> i == 0
    {
      var o := sets[i];
      var v := o.GetValue();
      var line: string;
      if v.VNull? {
        return Failure(NullReference);  // GetType on null
      } else if v.VString? {
        line := o.GetKey() + "=\"" + v.s + "\";";
      } else if v.VChar? {
        line := LowerStr(o.GetKey()) + "='" + [v.c] + "';";
      } else if v.VBool? {
        line := LowerStr(o.GetKey()) + "=\"" + BoolToString(v.b) + "\";";
      } else if v.VInt? {
        line := LowerStr(o.GetKey()) + "=" + IntToString(v.i as int) + ";";
      } else {
        line := LowerStr(o.GetKey()) + "=[NONE];";
      }
      assert line == Line(es[i]);
      LinesSnoc(es, i);
      if s == "" {
        s := line;
      } else {
        JoinSnoc(Lines(es[..i]), line, "\n");
        s := s + "\n" + line;
      }
    }
    assert es[..|sets|] == es;
    return Success(s);
  }

  // ---------------------------------------------------------------------------
  // Reading

  /** StartsWith(q) && EndsWith(q); a lone `q` does both. */
  predicate Quoted(s: string, q: char)
  {
    |s| >= 1 && s[0] == q && s[|s| - 1] == q
  }

  /**
   * The value read from the text after the '=' once every ';' is gone.
   * The Replace calls meant to strip the quotes have their results
   * discarded, so the text is used with its quotes.
   */
  function DecodeValue(text: string): (r: Result<Value>)
    ensures r.Failure? <==> !Quoted(text, '"') && Quoted(text, '\'') && |text| != 1
    ensures r.Failure? ==> r.error == Format
    ensures r.Success? ==> !r.value.VBool?
    ensures Quoted(text, '"') ==> r == Success(VString(text))
    ensures text == "'" ==> r == Success(VChar('\''))
    ensures ParseInt32(text).Some? ==> r == Success(VInt(ParseInt32(text).value))
    ensures !Quoted(text, '"') && !Quoted(text, '\'') && ParseInt32(text).None? ==> r == Success(VNull)
    ensures r.Success? && r.value.VInt? ==> ParseInt32(text) == Some(r.value.i)
  {
    if Quoted(text, '"') then
      match ParseBool(text)
      case Some(b) => Success(VBool(b))
      case None => Success(VString(text))
    else if Quoted(text, '\'') then
      if |text| == 1 then Success(VChar(text[0])) else Failure(Format)  // char.Parse
    else
      match ParseInt32(text)
      case Some(i) => Success(VInt(i))
      case None => Success(VNull)
  }

  /** One line: split at '=', keep the first two pieces, drop every ';' from the second. */
  function DecodeLine(line: string): (r: Result<Entry>)
    ensures '=' !in line ==> r == Failure(IndexOutOfRange)
  {
    var x := Split(line, '=');
    if |x| < 2 then Failure(IndexOutOfRange)
    else
      match DecodeValue(RemoveChar(x[1], ';'))
      case Failure(e) => Failure(e)
      case Success(v) => Success(MakeEntry(Some(x[0]), v))
  }

  /** The lines in order; the first line that throws ends the reading. */
  function DecodeLines(lines: seq<string>): Result<seq<Entry>>
  {
    if |lines| == 0 then Success([])
    else
      match DecodeLines(lines[..|lines| - 1])
      case Failure(e) => Failure(e)
      case Success(es) =>
        match DecodeLine(lines[|lines| - 1])
        case Failure(e) => Failure(e)
        case Success(e) => Success(es + [e])
  }

  /** What ReadFCubed returns: the entries of the '\n'-separated lines. */
  function Decode(data: string): Result<seq<Entry>>
  {
    DecodeLines(Split(data, '\n'))
  }

  /** Once a prefix of the lines throws, so does the whole. */
  lemma {:induction false} DecodeLinesPrefixFailure(lines: seq<string>, k: nat)
    requires k <= |lines| && DecodeLines(lines[..k]).Failure?
    ensures DecodeLines(lines) == DecodeLines(lines[..k])
    decreases |lines|
  {
    if k < |lines| {
      var init := lines[..|lines| - 1];
      assert init[..k] == lines[..k];
      DecodeLinesPrefixFailure(init, k);
    } else {
      assert lines[..k] == lines;
    }
  }

  /** Reading one more line that does not throw adds its entry at the end. */
  lemma DecodeLinesSnoc(lines: seq<string>, i: nat, es: seq<Entry>, e: Entry)
    requires i < |lines| && DecodeLines(lines[..i]) == Success(es) && DecodeLine(lines[i]) == Success(e)
    ensures DecodeLines(lines[..i + 1]) == Success(es + [e])
  {
    assert lines[..i + 1][..i] == lines[..i];
  }

  /** A line that throws after lines that do not ends the reading with its error. */
  lemma DecodeLinesStop(lines: seq<string>, i: nat, es: seq<Entry>)
    requires i < |lines| && DecodeLines(lines[..i]) == Success(es) && DecodeLine(lines[i]).Failure?
    ensures DecodeLines(lines) == Failure(DecodeLine(lines[i]).error)
  {
    assert lines[..i + 1][..i] == lines[..i];
    DecodeLinesPrefixFailure(lines, i + 1);
  }

  /** ReadFCubed, appending one ValueSet per line as the source does. */
  method ReadFCubed(data: string) returns (r: Result<seq<ValueSet>>)
    ensures r.Success? ==> Decode(data) == Success(Views(r.value))
    ensures r.Failure? ==> Decode(data) == Failure(r.error)
  {
    var sets: seq<ValueSet> := [];
    var s := Split(data, '\n');
    for i := 0 to |s|
      invariant DecodeLines(s[..i]) == Success(Views(sets))
    {
      var x := Split(s[i], '=');
      var x1 := x[0];
      if |x| < 2 {
        DecodeLinesStop(s, i, Views(sets));
        return Failure(IndexOutOfRange);  // x[1]
      }
      var x2 := x[1];
      x2 := RemoveChar(x2, ';');
      var vs: ValueSet;
      if Quoted(x2, '"') {
        // x2.Replace("\"", "") is evaluated and its result dropped
        var b := ParseBool(x2);
        if b.Some? {
          vs := new ValueSet(Some(x1), VBool(b.value));
        } else {
          vs := new ValueSet(Some(x1), VString(x2));
        }
      } else if Quoted(x2, '\'') {
        // x2.Replace("'", "") is evaluated and its result dropped
        if |x2| != 1 {
          DecodeLinesStop(s, i, Views(sets));
          return Failure(Format);  // char.Parse
        }
        vs := new ValueSet(Some(x1), VChar(x2[0]));
      } else {
        var n := ParseInt32(x2);
        if n.Some? {
          vs := new ValueSet(Some(x1), VInt(n.value));
        } else {
          vs := new ValueSet(Some(x1), VNull);
        }
      }
      assert DecodeLine(s[i]) == Success(vs.View());
      DecodeLinesSnoc(s, i, Views(sets), vs.View());
      ViewsSnoc(sets, vs);
      sets := sets + [vs];
    }
    assert s[..|s|] == s;
    return Success(sets);
  }
}
