/**
 * ReadFCubed as its comments say it should read: with the results of the two
 * quote-stripping Replace calls kept, so that a quoted "True" reads as the
 * bool true and a quoted 'a' as the char a.
 *
 * With that correction a write followed by a read gives back every entry,
 * with the keys of non-strings lower-cased and values of unsupported types
 * turned into null, for keys and texts that stay clear of the format's
 * delimiters.
 */
module FCubedFixed {
  import opened Wrappers
  import opened Text
  import opened Values
  import opened FCubed
  import opened FCubedProperties

  /** The value read from a value text once every ';' is gone, with the quotes stripped as intended. */
  function DecodeValueFixed(text: string): (r: Result<Value>)
    ensures r.Failure? <==> !Quoted(text, '"') && Quoted(text, '\'') && |RemoveChar(text, '\'')| != 1
    ensures r.Failure? ==> r.error == Format
    ensures Quoted(text, '"') && r.value.VString? ==> '"' !in r.value.s
    ensures Quoted(text, '"') ==> r.value.VString? || r.value.VBool?
    ensures Quoted(text, '"') && r.value.VString? ==> r.value.s == RemoveChar(text, '"')
    ensures Quoted(text, '"') ==> (r.value.VBool? <==> ParseBool(RemoveChar(text, '"')).Some?)
    ensures Quoted(text, '"') && r.value.VBool? ==> ParseBool(RemoveChar(text, '"')) == Some(r.value.b)
    ensures !Quoted(text, '"') && Quoted(text, '\'') && |RemoveChar(text, '\'')| == 1 ==>
      r == Success(VChar(RemoveChar(text, '\'')[0]))
    ensures !Quoted(text, '"') && !Quoted(text, '\'') ==>
      r == Success(if ParseInt32(text).Some? then VInt(ParseInt32(text).value) else VNull)
  {
    if Quoted(text, '"') then
      var t := RemoveChar(text, '"');
      match ParseBool(t)
      case Some(b) => Success(VBool(b))
      case None => Success(VString(t))
    else if Quoted(text, '\'') then
      var t := RemoveChar(text, '\'');
      if |t| == 1 then Success(VChar(t[0])) else Failure(Format)
    else
      match ParseInt32(text)
      case Some(i) => Success(VInt(i))
      case None => Success(VNull)
  }

  /** One line, read with DecodeValueFixed. */
  function DecodeLineFixed(line: string): (r: Result<Entry>)
    ensures '=' !in line ==> r == Failure(IndexOutOfRange)
  {
    var x := Split(line, '=');
    if |x| < 2 then Failure(IndexOutOfRange)
    else
      match DecodeValueFixed(RemoveChar(x[1], ';'))
      case Failure(e) => Failure(e)
      case Success(v) => Success(MakeEntry(Some(x[0]), v))
  }

  function DecodeLinesFixed(lines: seq<string>): Result<seq<Entry>>
  {
    if |lines| == 0 then Success([])
    else
      match DecodeLinesFixed(lines[..|lines| - 1])
      case Failure(e) => Failure(e)
      case Success(es) =>
        match DecodeLineFixed(lines[|lines| - 1])
        case Failure(e) => Failure(e)
        case Success(e) => Success(es + [e])
  }

  /** ReadFCubed with the quotes stripped. */
  function DecodeFixed(data: string): Result<seq<Entry>>
  {
    DecodeLinesFixed(Split(data, '\n'))
  }

  // ---------------------------------------------------------------------------
  // What a write followed by the corrected read gives back

  /**
   * A strict entry, which the corrected read gives back: a plain entry whose
   * string holds no ';' or '"' and spells no bool, and whose char is not ';',
   * '\'' or '='.
   */
  predicate FixedSafe(e: Entry)
  {
    && RoundTripSafe(e)
    && (e.value.VString? ==> ';' !in e.value.s && '"' !in e.value.s && ParseBool(e.value.s).None?)
    && (e.value.VChar? ==> e.value.c !in {';', '\'', '=', '\n'})
  }

  /** The entry the corrected read gives back: the key as written, the value itself, null for an unsupported one. */
  function Restored(e: Entry): Entry
  {
    Entry(KeyText(e), if e.value.VOther? then VNull else e.value)
  }

  function RestoredAll(es: seq<Entry>): seq<Entry>
  {
    seq(|es|, i requires 0 <= i < |es| => Restored(es[i]))
  }

  lemma DecodeKeyValueFixed(k: string, raw: string)
    requires k != "" && '=' !in k && '=' !in raw
    ensures DecodeLineFixed(k + "=" + raw) ==
      match DecodeValueFixed(RemoveChar(raw, ';'))
      case Failure(err) => Failure(err)
      case Success(v) => Success(Entry(k, v))
  {
    SplitTwo(k, raw);
  }

  lemma RestoresString(s: string)
    requires ';' !in s && '"' !in s && ParseBool(s).None?
    ensures DecodeValueFixed(RemoveChar("\"" + s + "\"" + ";", ';')) == Success(VString(s))
  {
    RemoveCharQuoted("\"", s);
    RemoveCharAbsent(s, ';');
    var t := "\"" + s + "\"";
    assert Quoted(t, '"');
    RemoveCharConcat("\"" + s, "\"", '"');
    RemoveCharConcat("\"", s, '"');
    RemoveCharAbsent(s, '"');
    assert RemoveChar("\"", '"') == "";
    assert RemoveChar(t, '"') == s;
  }

  lemma RestoresBool(b: bool)
    ensures DecodeValueFixed(RemoveChar("\"" + BoolToString(b) + "\"" + ";", ';')) == Success(VBool(b))
  {
    var s := BoolToString(b);
    assert ';' !in s && '"' !in s;
    RemoveCharQuoted("\"", s);
    RemoveCharAbsent(s, ';');
    var t := "\"" + s + "\"";
    assert Quoted(t, '"');
    RemoveCharConcat("\"" + s, "\"", '"');
    RemoveCharConcat("\"", s, '"');
    RemoveCharAbsent(s, '"');
    assert RemoveChar("\"", '"') == "";
    assert RemoveChar(t, '"') == s;
    ParseBoolToString(b);
  }

  lemma RestoresChar(c: char)
    requires c != ';' && c != '\''
    ensures DecodeValueFixed(RemoveChar("'" + [c] + "'" + ";", ';')) == Success(VChar(c))
  {
    RemoveCharQuoted("'", [c]);
    RemoveCharAbsent([c], ';');
    var t := "'" + [c] + "'";
    assert !Quoted(t, '"') && Quoted(t, '\'');
    RemoveCharConcat("'" + [c], "'", '\'');
    RemoveCharConcat("'", [c], '\'');
    RemoveCharAbsent([c], '\'');
    assert RemoveChar("'", '\'') == "";
    assert RemoveChar(t, '\'') == [c];
  }

  lemma RestoresPlain(vt: string)
    requires ';' !in vt && (|vt| == 0 || (vt[0] != '"' && vt[0] != '\''))
    ensures DecodeValueFixed(RemoveChar(vt + ";", ';')) ==
      match ParseInt32(vt)
      case Some(i) => Success(VInt(i))
      case None => Success(VNull)
  {
    RemoveCharConcat(vt, ";", ';');
    RemoveCharAbsent(vt, ';');
    assert RemoveChar(";", ';') == "";
    assert RemoveChar(vt + ";", ';') == vt;
  }

  /** Reading one written line with the quotes stripped gives back the entry. */
  lemma DecodeLineFixedOfLine(e: Entry)
    requires FixedSafe(e)
    ensures DecodeLineFixed(Line(e)) == Success(Restored(e))
  {
    LineParts(e);
    var k := KeyText(e);
    var raw := ValueText(e.value) + ";";
    if e.value.VInt? {
      IntTextChars(e.value.i as int, '=');
    }
    assert '=' !in raw;
    DecodeKeyValueFixed(k, raw);
    RestoresValue(e.value);
  }

  /** The value text written for a value reads back, with the quotes stripped, as that value. */
  lemma RestoresValue(v: Value)
    requires !v.VNull?
    requires v.VString? ==> ';' !in v.s && '"' !in v.s && ParseBool(v.s).None?
    requires v.VChar? ==> v.c != ';' && v.c != '\''
    ensures DecodeValueFixed(RemoveChar(ValueText(v) + ";", ';')) == Success(if v.VOther? then VNull else v)
  {
    match v
    case VString(s) => RestoresString(s);
    case VChar(c) => RestoresChar(c);
    case VBool(b) => RestoresBool(b);
    case VInt(i) =>
      IntTextChars(i as int, ';');
      RestoresPlain(IntToString(i as int));
      ParseIntToString(i);
    case VOther =>
      assert ParseInt32("[NONE]") == None;
      RestoresPlain("[NONE]");
  }

  lemma DecodeLinesFixedSnoc(lines: seq<string>, es: seq<Entry>, e: Entry)
    requires |lines| >= 1
    requires DecodeLinesFixed(lines[..|lines| - 1]) == Success(es)
    requires DecodeLineFixed(lines[|lines| - 1]) == Success(e)
    ensures DecodeLinesFixed(lines) == Success(es + [e])
  {
  }

  lemma {:induction false} DecodeLinesFixedOfLines(es: seq<Entry>)
    requires forall i :: 0 <= i < |es| ==> FixedSafe(es[i])
    ensures NoNulls(es)
    ensures DecodeLinesFixed(Lines(es)) == Success(RestoredAll(es))
    decreases |es|
  {
    if |es| > 0 {
      var n := |es| - 1;
      var init := es[..n];
      DecodeLinesFixedOfLines(init);
      var ls := Lines(es);
      assert |ls| == |es| && ls[n] == Line(es[n]);
      assert ls[..n] == Lines(init);
      DecodeLineFixedOfLine(es[n]);
      RestoredAllSnoc(es);
      DecodeLinesFixedSnoc(ls, RestoredAll(init), Restored(es[n]));
      assert DecodeLinesFixed(ls) == Success(RestoredAll(es));
    } else {
      assert RestoredAll(es) == [];
    }
  }

  lemma RestoredAllSnoc(es: seq<Entry>)
    requires |es| >= 1
    ensures RestoredAll(es) == RestoredAll(es[..|es| - 1]) + [Restored(es[|es| - 1])]
  {
    var n := |es| - 1;
    var a := RestoredAll(es);
    var b := RestoredAll(es[..n]) + [Restored(es[n])];
    forall i | 0 <= i < |es| ensures a[i] == b[i] {
      if i < n {
        assert es[..n][i] == es[i];
      }
    }
  }

  /**
   * The intended round trip: reading back what was written, with the quotes
   * stripped, gives every entry back, under its key as written.
   */
  lemma DecodeFixedEncode(es: seq<Entry>)
    requires |es| >= 1
    requires forall i :: 0 <= i < |es| ==> FixedSafe(es[i])
    ensures Encode(es).Success?
    ensures DecodeFixed(Encode(es).value) == Success(RestoredAll(es))
  {
    DecodeLinesFixedOfLines(es);
    EncodeLines(es);
  }

  // ---------------------------------------------------------------------------
  // The same entries, read as written and read as intended

  /** A line holding one entry reads as that entry alone, before and after the correction. */
  lemma DecodeOneEntry(e: Entry)
    requires RoundTripSafe(e)
    ensures Encode([e]) == Success(Line(e))
    ensures Decode(Line(e)) == match ReadBack(e)
      case Failure(err) => Failure(err)
      case Success(x) => Success([x])
    ensures FixedSafe(e) ==> DecodeFixed(Line(e)) == Success([Restored(e)])
  {
    assert Lines([e]) == [Line(e)];
    LineHasNoNewline(e);
    DecodeOneLine(Line(e));
    DecodeLineOfLine(e);
    if FixedSafe(e) {
      assert Join([Line(e)], "\n") == Line(e);
      SplitJoin([Line(e)], '\n');
      assert Split(Line(e), '\n') == [Line(e)];
      DecodeLineFixedOfLine(e);
      assert [Line(e)][..0] == [];
      assert DecodeLinesFixed([Line(e)][..0]) == Success([]);
      assert [] + [Restored(e)] == [Restored(e)];
    }
  }

  /** A written bool reads back, as written, as a string in quotes; as intended, as the bool. */
  lemma BoolReadBack(k: string, b: bool)
    requires k != "" && '=' !in k && '\n' !in k
    ensures Decode(Encode([Entry(k, VBool(b))]).value) == Success([Entry(LowerStr(k), VString("\"" + BoolToString(b) + "\""))])
    ensures DecodeFixed(Encode([Entry(k, VBool(b))]).value) == Success([Entry(LowerStr(k), VBool(b))])
  {
    DecodeOneEntry(Entry(k, VBool(b)));
  }

  /** A written char other than the delimiters fails to read as written, and reads back as intended. */
  lemma CharReadBack(k: string, c: char)
    requires k != "" && '=' !in k && '\n' !in k && c !in {';', '\'', '=', '\n'}
    ensures Decode(Encode([Entry(k, VChar(c))]).value) == Failure(Format)
    ensures DecodeFixed(Encode([Entry(k, VChar(c))]).value) == Success([Entry(LowerStr(k), VChar(c))])
  {
    DecodeOneEntry(Entry(k, VChar(c)));
  }
}
