/**
 * What the FCubed format does with the entries it writes and the text it
 * reads: the shape of the written text, how each line is read, and what a
 * write followed by a read gives back.
 */
module FCubedProperties {
  import opened Wrappers
  import opened Text
  import opened Values
  import opened ValueSets
  import opened FCubed

  // ---------------------------------------------------------------------------
  // Writing

  /** Writing no entries gives the empty text. */
  lemma EncodeEmpty()
    ensures Encode([]) == Success("")
  {
  }

  /** Any array holding the empty-key sentinel makes WriteFCubed throw, since the sentinel's value is null. */
  lemma EncodeSentinelFails(sets: seq<ValueSet>, i: nat)
    requires i < |sets| && sets[i].Valid() && sets[i].GetKey() == ""
    ensures Encode(Views(sets)) == Failure(NullReference)
  {
    assert Views(sets)[i].value.VNull?;
  }

  /** An entry whose line holds no newline: its key, and a string or char value, have none. */
  predicate LineSafe(e: Entry)
  {
    && !e.value.VNull?
    && '\n' !in e.key
    && (e.value.VString? ==> '\n' !in e.value.s)
    && (e.value.VChar? ==> e.value.c != '\n')
  }

  /** The decimal form of an integer holds only '-' and digits. */
  lemma IntTextChars(i: int, d: char)
    requires d != '-' && !IsDigit(d)
    ensures d !in IntToString(i)
  {
    var s := IntToString(i);
    forall k | 0 <= k < |s| ensures s[k] != d {
      if k > 0 {
        assert s[k] == s[1..][k - 1];
      }
    }
  }

  /** The written key holds no character that the key does not, letters aside. */
  lemma KeyTextKeeps(e: Entry, d: char)
    requires !IsLetter(d)
    ensures d in KeyText(e) <==> d in e.key
  {
    LowerKeepsNonLetters(e.key, d);
  }

  lemma LineHasNoNewline(e: Entry)
    requires LineSafe(e)
    ensures '\n' !in Line(e)
  {
    LineShape(e);
    KeyTextKeeps(e, '\n');
    if e.value.VInt? {
      IntTextChars(e.value.i as int, '\n');
    }
  }

  /**
   * The written text has one line per entry, in input order, with no newline
   * after the last: splitting it at '\n' gives the entries' lines.
   */
  lemma EncodeLines(es: seq<Entry>)
    requires |es| >= 1
    requires forall i :: 0 <= i < |es| ==> LineSafe(es[i])
    ensures Encode(es).Success?
    ensures Split(Encode(es).value, '\n') == Lines(es)
  {
    var ls := Lines(es);
    forall k | 0 <= k < |ls| ensures '\n' !in ls[k] {
      LineHasNoNewline(es[k]);
    }
    SplitJoin(ls, '\n');
  }

  // ---------------------------------------------------------------------------
  // Reading, line by line

  /** Each line is read on its own: the entries are the lines' entries in order, and the first failing line decides the error. */
  lemma DecodeLinesEach(lines: seq<string>)
    ensures DecodeLines(lines).Success? <==> forall i :: 0 <= i < |lines| ==> DecodeLine(lines[i]).Success?
    ensures DecodeLines(lines).Success? ==>
      |DecodeLines(lines).value| == |lines| &&
      forall i :: 0 <= i < |lines| ==> DecodeLines(lines).value[i] == DecodeLine(lines[i]).value
    ensures DecodeLines(lines).Failure? ==>
      exists i :: 0 <= i < |lines| && DecodeLine(lines[i]) == Failure(DecodeLines(lines).error) &&
        forall j :: 0 <= j < i ==> DecodeLine(lines[j]).Success?
  {
    if DecodeLines(lines).Success? {
      DecodeLinesValues(lines);
    } else {
      DecodeLinesFailure(lines);
    }
  }

  lemma {:induction false} DecodeLinesValues(lines: seq<string>)
    requires DecodeLines(lines).Success?
    ensures |DecodeLines(lines).value| == |lines|
    ensures forall i :: 0 <= i < |lines| ==>
      DecodeLine(lines[i]).Success? && DecodeLines(lines).value[i] == DecodeLine(lines[i]).value
    decreases |lines|
  {
    if |lines| > 0 {
      var n := |lines| - 1;
      var init := lines[..n];
      DecodeLinesValues(init);
      var es := DecodeLines(init).value;
      var e := DecodeLine(lines[n]).value;
      assert DecodeLines(lines).value == es + [e];
      forall i | 0 <= i < |lines|
        ensures DecodeLine(lines[i]).Success? && DecodeLines(lines).value[i] == DecodeLine(lines[i]).value
      {
        if i < n {
          assert lines[i] == init[i];
        }
      }
    }
  }

  lemma {:induction false} DecodeLinesFailure(lines: seq<string>)
    requires DecodeLines(lines).Failure?
    ensures exists i ::
      && 0 <= i < |lines|
      && DecodeLine(lines[i]) == Failure(DecodeLines(lines).error)
      && forall j :: 0 <= j < i ==> DecodeLine(lines[j]).Success?
    decreases |lines|
  {
    var n := |lines| - 1;
    var init := lines[..n];
    var err := DecodeLines(lines).error;
    if DecodeLines(init).Failure? {
      DecodeLinesFailure(init);
      var i :| 0 <= i < |init| && DecodeLine(init[i]) == Failure(DecodeLines(init).error) &&
        forall j :: 0 <= j < i ==> DecodeLine(init[j]).Success?;
      assert forall j :: 0 <= j <= i ==> init[j] == lines[j];
      assert DecodeLine(lines[i]) == Failure(err);
    } else {
      DecodeLinesValues(init);
      assert forall j :: 0 <= j < n ==> init[j] == lines[j];
      assert DecodeLine(lines[n]) == Failure(err);
    }
  }

  /** The text before the first '=' of a line. */
  function KeyPart(line: string): string
  {
    line[..IndexOf(line, '=')]
  }

  /** The text between the first and the second '=' of a line (to its end when there is one '='). */
  function ValuePart(line: string): string
    requires '=' in line
  {
    var i := IndexOf(line, '=');
    var rest := line[i + 1..];
    rest[..IndexOf(rest, '=')]
  }

  lemma IndexOfFound(s: string, c: char)
    requires c in s
    ensures IndexOf(s, c) < |s|
  {
    var k :| 0 <= k < |s| && s[k] == c;
  }

  /**
   * A line with an '=' is read as its key part, unchanged, and its value part
   * with every ';' removed; text after a second '=' is ignored.
   */
  lemma DecodeLineParts(line: string)
    requires '=' in line
    ensures DecodeLine(line).Failure? <==> DecodeValue(RemoveChar(ValuePart(line), ';')).Failure?
    ensures DecodeLine(line).Failure? ==> DecodeLine(line).error == Format
    ensures DecodeLine(line).Success? ==>
      DecodeLine(line).value == MakeEntry(Some(KeyPart(line)), DecodeValue(RemoveChar(ValuePart(line), ';')).value)
  {
    IndexOfFound(line, '=');
    var i := IndexOf(line, '=');
    var rest := line[i + 1..];
    var x := Split(line, '=');
    assert x == [line[..i]] + Split(rest, '=');
    var j := IndexOf(rest, '=');
    if j == |rest| {
      assert Split(rest, '=') == [rest];
      assert rest[..j] == rest;
    } else {
      assert Split(rest, '=')[0] == rest[..j];
    }
  }

  /** Reading the text "" throws: its one line has no '='. */
  lemma DecodeEmptyFails()
    ensures Decode("") == Failure(IndexOutOfRange)
  {
    assert Split("", '\n') == [""];
    assert [""][..0] == [];
  }

  /** Reading text with a line that has no '=' throws. */
  lemma DecodeMissingSeparator(data: string, k: nat)
    requires k < |Split(data, '\n')| && '=' !in Split(data, '\n')[k]
    ensures Decode(data).Failure?
  {
    DecodeLinesEach(Split(data, '\n'));
  }

  /**
   * Reading yields exactly one entry per '\n'-separated line, in line order:
   * the key before the first '=' (or the empty-key sentinel when that is
   * empty) and the value read from the segment after it.
   */
  lemma DecodeStructure(data: string)
    ensures Decode(data).Success? ==>
      var lines := Split(data, '\n');
      |Decode(data).value| == |lines| &&
      forall i :: 0 <= i < |lines| ==>
        '=' in lines[i] &&
        DecodeValue(RemoveChar(ValuePart(lines[i]), ';')).Success? &&
        Decode(data).value[i] == MakeEntry(Some(KeyPart(lines[i])), DecodeValue(RemoveChar(ValuePart(lines[i]), ';')).value)
  {
    var lines := Split(data, '\n');
    DecodeLinesEach(lines);
    if Decode(data).Success? {
      forall i | 0 <= i < |lines|
        ensures '=' in lines[i]
        ensures DecodeValue(RemoveChar(ValuePart(lines[i]), ';')).Success?
        ensures Decode(data).value[i] == MakeEntry(Some(KeyPart(lines[i])), DecodeValue(RemoveChar(ValuePart(lines[i]), ';')).value)
      {
        assert DecodeLine(lines[i]).Success?;
        DecodeLineParts(lines[i]);
      }
    }
  }

  /** No text ever reads back a Bool entry: the quotes around "True" are never stripped. */
  lemma DecodeNeverBool(data: string)
    ensures Decode(data).Success? ==> forall i :: 0 <= i < |Decode(data).value| ==> !Decode(data).value[i].value.VBool?
  {
    var lines := Split(data, '\n');
    DecodeLinesEach(lines);
    if Decode(data).Success? {
      forall i | 0 <= i < |lines| ensures !Decode(data).value[i].value.VBool? {
        assert DecodeLine(lines[i]).Success?;
        DecodeLineParts(lines[i]);
      }
    }
  }

  /** Value texts as the reading sees them: quotes stay, and what is not a number reads as null. */
  lemma DecodeValueExamples()
    ensures DecodeValue("\"True\"") == Success(VString("\"True\""))
    ensures DecodeValue("'a'") == Failure(Format)
    ensures DecodeValue("[NONE]") == Success(VNull)
    ensures DecodeValue("hello") == Success(VNull)
  {
    assert LowerStr("\"True\"") != "true";
    assert ParseInt32("[NONE]") == None;
    assert ParseInt32("hello") == None;
  }

  /** A number too large for 32 bits reads as null, not as an int. */
  lemma DecodeValueOverflow(n: nat)
    requires n >= 0x8000_0000
    ensures DecodeValue(NatToString(n)) == Success(VNull)
  {
    ParseIntOverflow(n);
    var t := NatToString(n);
    assert IsDigit(t[0]);
  }

  // ---------------------------------------------------------------------------
  // Writing, then reading

  /**
   * A plain entry: a non-null value, a non-empty key without '=' or newline,
   * a string without '=' or newline, a char other than newline. Only for such
   * an entry does the written line come back as one line split at its own '='.
   */
  predicate RoundTripSafe(e: Entry)
  {
    && LineSafe(e)
    && e.key != ""
    && '=' !in e.key
    && (e.value.VString? ==> '=' !in e.value.s)
  }

  /**
   * What reading gives back for one written entry: a string keeps its key and
   * gains its quotes (losing any ';'); a bool becomes the quoted string of
   * "True" or "False"; an int comes back; any other value becomes null; a char
   * makes reading throw, except '=', whose line splits into the lone quote.
   */
  function ReadBack(e: Entry): Result<Entry>
    requires !e.value.VNull?
  {
    match e.value
    case VString(s) => Success(Entry(e.key, VString("\"" + RemoveChar(s, ';') + "\"")))
    case VChar(c) => if c == '=' then Success(Entry(LowerStr(e.key), VChar('\''))) else Failure(Format)
    case VBool(b) => Success(Entry(LowerStr(e.key), VString("\"" + BoolToString(b) + "\"")))
    case VInt(i) => Success(Entry(LowerStr(e.key), VInt(i)))
    case VOther => Success(Entry(LowerStr(e.key), VNull))
  }

  lemma SplitTwo(a: string, b: string)
    requires '=' !in a && '=' !in b
    ensures Split(a + "=" + b, '=') == [a, b]
  {
    assert Join([a, b], "=") == a + "=" + Join([b], "=");
    SplitJoin([a, b], '=');
  }

  /** A line made of a key, '=' and a value text without '=' reads as that key and the value read from that text. */
  lemma DecodeKeyValue(k: string, raw: string)
    requires k != "" && '=' !in k && '=' !in raw
    ensures DecodeLine(k + "=" + raw) ==
      match DecodeValue(RemoveChar(raw, ';'))
      case Failure(err) => Failure(err)
      case Success(v) => Success(Entry(k, v))
  {
    SplitTwo(k, raw);
  }

  lemma DecodeStringLine(k: string, v: string)
    requires k != "" && '=' !in k && '=' !in v
    ensures DecodeLine(k + "=" + ("\"" + v + "\"" + ";")) == Success(Entry(k, VString("\"" + RemoveChar(v, ';') + "\"")))
  {
    var raw := "\"" + v + "\"" + ";";
    DecodeKeyValue(k, raw);
    RemoveCharQuoted("\"", v);
  }

  /** Taking every ';' out of a quoted text followed by ';' leaves the quotes and the text without ';'. */
  lemma RemoveCharQuoted(q: string, v: string)
    requires q == "\"" || q == "'"
    ensures RemoveChar(q + v + q + ";", ';') == q + RemoveChar(v, ';') + q
  {
    RemoveCharConcat(q + v + q, ";", ';');
    assert RemoveChar(";", ';') == "";
    RemoveCharConcat(q + v, q, ';');
    RemoveCharConcat(q, v, ';');
    assert RemoveChar(q, ';') == q;
  }

  lemma DecodeCharLine(k: string, c: char)
    requires k != "" && '=' !in k && c != '='
    ensures DecodeLine(k + "=" + ("'" + [c] + "'" + ";")) == Failure(Format)
  {
    var raw := "'" + [c] + "'" + ";";
    DecodeKeyValue(k, raw);
    RemoveCharQuoted("'", [c]);
    var t := RemoveChar(raw, ';');
    assert t == "'" + RemoveChar([c], ';') + "'";
    assert |t| >= 2 && t[0] == '\'' && t[|t| - 1] == '\'';
  }

  lemma DecodeEqualsCharLine(k: string)
    requires k != "" && '=' !in k
    ensures DecodeLine(k + "=" + ("'" + "=" + "'" + ";")) == Success(Entry(k, VChar('\'')))
  {
    var line := k + "=" + ("'" + "=" + "'" + ";");
    assert ["'", "';"][1..] == ["';"];
    assert Join(["'", "';"], "=") == "'" + "=" + "';";
    assert [k, "'", "';"][1..] == ["'", "';"];
    assert Join([k, "'", "';"], "=") == line;
    SplitJoin([k, "'", "';"], '=');
    RemoveCharAbsent("'", ';');
  }

  lemma DecodePlainLine(k: string, vt: string)
    requires k != "" && '=' !in k && '=' !in vt && ';' !in vt
    ensures DecodeLine(k + "=" + (vt + ";")) ==
      match DecodeValue(vt)
      case Failure(err) => Failure(err)
      case Success(v) => Success(Entry(k, v))
  {
    DecodeKeyValue(k, vt + ";");
    RemoveCharConcat(vt, ";", ';');
    RemoveCharAbsent(vt, ';');
    assert RemoveChar(";", ';') == "";
    assert RemoveChar(vt + ";", ';') == vt;
  }

  lemma DecodeIntLine(k: string, i: int32)
    requires k != "" && '=' !in k
    ensures DecodeLine(k + "=" + (IntToString(i as int) + ";")) == Success(Entry(k, VInt(i)))
  {
    var vt := IntToString(i as int);
    IntTextChars(i as int, '=');
    IntTextChars(i as int, ';');
    DecodePlainLine(k, vt);
    ParseIntToString(i);
    assert !Quoted(vt, '"') && !Quoted(vt, '\'');
  }

  /** The written line of a round-trip-safe entry splits into a usable key and its value text. */
  lemma LineParts(e: Entry)
    requires RoundTripSafe(e)
    ensures Line(e) == KeyText(e) + "=" + (ValueText(e.value) + ";")
    ensures KeyText(e) != "" && '=' !in KeyText(e)
  {
    LineShape(e);
    KeyTextKeeps(e, '=');
    assert |KeyText(e)| == |e.key|;
  }

  /** Reading the line written for an entry gives ReadBack of it. */
  lemma DecodeLineOfLine(e: Entry)
    requires RoundTripSafe(e)
    ensures DecodeLine(Line(e)) == ReadBack(e)
  {
    if e.value.VChar? {
      DecodeLineOfChar(e);
    } else if e.value.VString? {
      DecodeLineOfString(e);
    } else if e.value.VInt? {
      DecodeLineOfInt(e);
    } else {
      DecodeLineOfOther(e);
    }
  }

  lemma DecodeLineOfChar(e: Entry)
    requires RoundTripSafe(e) && e.value.VChar?
    ensures DecodeLine(Line(e)) == ReadBack(e)
  {
    LineParts(e);
    if e.value.c == '=' {
      DecodeEqualsCharLine(KeyText(e));
    } else {
      DecodeCharLine(KeyText(e), e.value.c);
    }
  }

  lemma DecodeLineOfString(e: Entry)
    requires RoundTripSafe(e) && e.value.VString?
    ensures DecodeLine(Line(e)) == ReadBack(e)
  {
    LineParts(e);
    DecodeStringLine(KeyText(e), e.value.s);
  }

  lemma DecodeLineOfInt(e: Entry)
    requires RoundTripSafe(e) && e.value.VInt?
    ensures DecodeLine(Line(e)) == ReadBack(e)
  {
    LineParts(e);
    DecodeIntLine(KeyText(e), e.value.i);
  }

  /** Bools and values of unsupported types: their value text holds neither '=' nor ';'. */
  lemma DecodeLineOfOther(e: Entry)
    requires RoundTripSafe(e) && (e.value.VBool? || e.value.VOther?)
    ensures DecodeLine(Line(e)) == ReadBack(e)
  {
    LineParts(e);
    DecodePlainLine(KeyText(e), ValueText(e.value));
  }

  /** Reading the written lines, before they are joined: each line reads back on its own. */
  lemma DecodeLinesOfLines(es: seq<Entry>)
    requires forall i :: 0 <= i < |es| ==> RoundTripSafe(es[i])
    ensures NoNulls(es)
    ensures DecodeLines(Lines(es)).Success? <==> forall i :: 0 <= i < |es| ==> ReadBack(es[i]).Success?
    ensures DecodeLines(Lines(es)).Success? ==>
      |DecodeLines(Lines(es)).value| == |es| &&
      forall i :: 0 <= i < |es| ==> DecodeLines(Lines(es)).value[i] == ReadBack(es[i]).value
    ensures DecodeLines(Lines(es)).Failure? ==> DecodeLines(Lines(es)).error == Format
  {
    var ls := Lines(es);
    forall i | 0 <= i < |es| ensures DecodeLine(ls[i]) == ReadBack(es[i]) {
      DecodeLineOfLine(es[i]);
    }
    DecodeLinesEach(ls);
    var d := DecodeLines(ls);
    if d.Failure? {
      var i :| 0 <= i < |ls| && DecodeLine(ls[i]) == Failure(d.error);
      assert ReadBack(es[i]).Failure?;
    }
  }

  /**
   * Reading what was written: for non-empty entries whose keys and strings
   * hold no '=' or newline, the read succeeds exactly when every entry reads
   * back, gives ReadBack of each entry in order, and otherwise throws the
   * FormatException of a quoted char.
   */
  lemma DecodeEncode(es: seq<Entry>)
    requires |es| >= 1
    requires forall i :: 0 <= i < |es| ==> RoundTripSafe(es[i])
    ensures Encode(es).Success?
    ensures Decode(Encode(es).value).Success? <==> forall i :: 0 <= i < |es| ==> ReadBack(es[i]).Success?
    ensures Decode(Encode(es).value).Success? ==>
      |Decode(Encode(es).value).value| == |es| &&
      forall i :: 0 <= i < |es| ==> Decode(Encode(es).value).value[i] == ReadBack(es[i]).value
    ensures Decode(Encode(es).value).Failure? ==> Decode(Encode(es).value).error == Format
  {
    EncodeLines(es);
    DecodeLinesOfLines(es);
    assert Decode(Encode(es).value) == DecodeLines(Lines(es));
  }

  /**
   * For ints and values of unsupported types under keys without '=' or
   * newline, reading what was written gives the lower-cased keys in order,
   * the same ints, and null for every unsupported value.
   */
  lemma DecodeEncodeIntOther(es: seq<Entry>)
    requires |es| >= 1
    requires forall i :: 0 <= i < |es| ==>
      es[i].key != "" && '=' !in es[i].key && '\n' !in es[i].key && (es[i].value.VInt? || es[i].value.VOther?)
    ensures Encode(es).Success?
    ensures Decode(Encode(es).value) ==
      Success(seq(|es|, i requires 0 <= i < |es| => Entry(LowerStr(es[i].key), if es[i].value.VInt? then es[i].value else VNull)))
  {
    DecodeEncode(es);
    var expected := seq(|es|, i requires 0 <= i < |es| =>
      Entry(LowerStr(es[i].key), if es[i].value.VInt? then es[i].value else VNull));
    forall i | 0 <= i < |es| ensures ReadBack(es[i]) == Success(expected[i]) {
    }
    assert Decode(Encode(es).value).value == expected;
  }

  /** Writing nothing and reading it back throws, since "" has no '='. */
  lemma DecodeEncodeEmpty()
    ensures Decode(Encode([]).value) == Failure(IndexOutOfRange)
  {
    DecodeEmptyFails();
  }

  // ---------------------------------------------------------------------------
  // Worked examples

  lemma EncodeExamples()
    ensures Encode([Entry("Name", VString("Alice"))]) == Success("Name=\"Alice\";")
    ensures Encode([Entry("Active", VBool(true))]) == Success("active=\"True\";")
    ensures Encode([Entry("Count", VInt(42))]) == Success("count=42;")
  {
    var name := Entry("Name", VString("Alice"));
    assert Line(name) == "Name=\"Alice\";";
    assert Lines([name]) == [Line(name)];
    var active := Entry("Active", VBool(true));
    assert LowerStr("Active") == "active";
    assert Line(active) == "active=\"True\";";
    assert Lines([active]) == [Line(active)];
    var count := Entry("Count", VInt(42));
    assert LowerStr("Count") == "count";
    assert NatToString(42) == "42" by {
      assert NatToString(4) == "4";
    }
    assert Line(count) == "count=42;";
    assert Lines([count]) == [Line(count)];
  }

  /** Text of one line reads as that line alone. */
  lemma DecodeOneLine(line: string)
    requires '\n' !in line
    ensures Decode(line) == match DecodeLine(line)
      case Failure(err) => Failure(err)
      case Success(e) => Success([e])
  {
    assert Join([line], "\n") == line;
    SplitJoin([line], '\n');
    assert Split(line, '\n') == [line];
    assert [line][..0] == [];
    assert DecodeLines([line][..0]) == Success([]);
    match DecodeLine(line)
    case Failure(err) =>
    case Success(e) =>
      assert [] + [e] == [e];
  }

  /** A single written int line reads back as that entry. */
  lemma DecodeIntText(k: string, i: int32)
    requires k != "" && '=' !in k && '\n' !in k
    ensures Decode(k + "=" + (IntToString(i as int) + ";")) == Success([Entry(k, VInt(i))])
  {
    var line := k + "=" + (IntToString(i as int) + ";");
    IntTextChars(i as int, '\n');
    DecodeOneLine(line);
    DecodeIntLine(k, i);
  }

  /** The written example reads back with its key lower-cased. */
  lemma DecodeExamples()
    ensures Decode("count=42;") == Success([Entry("count", VInt(42))])
  {
    assert NatToString(42) == "42" by {
      assert NatToString(4) == "4";
    }
    assert "count" + "=" + (IntToString(42) + ";") == "count=42;";
    DecodeIntText("count", 42);
  }
}
