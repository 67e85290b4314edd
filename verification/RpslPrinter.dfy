/**
 * A grammar of RPSL files, a printer for it, and the round trip through the parser.
 *
 * A document fixes every freedom of the format: upper or lower case in keys, white space around the
 * key and the colon, values folded over space, tab or `+` continuation lines, comments and other
 * ignored lines in between, repeated and interleaved attributes, any number of blank lines, CR LF or
 * LF. Lines are told apart by their characters alone. Every file is such a document.
 */
module RpslPrinter {
  import opened Prelude
  import opened PyText
  import opened RpslParser

  /** A continuation line and the ignored lines before it. An empty text adds nothing. */
  datatype Fold = Fold(noise: seq<string>, marker: char, pad: string, text: string)

  /** An attribute: ignored lines, the `key: value` line, and its continuations. */
  datatype AttrLine = AttrLine(
    noise: seq<string>, indent: string, key: string, keyPad: string, pad: string, first: string, folds: seq<Fold>)

  /**
   * What stands between blank lines: attributes, the ignored lines after the last one, and the blank
   * lines that follow. Without an attribute it is no object.
   */
  datatype DocObject = DocObject(attrs: seq<AttrLine>, noise: seq<string>, gap: nat)

  // ---------------------------------------------------------------- lines by their characters

  predicate OneLine(s: string) {
    forall i :: 0 <= i < |s| ==> s[i] != '\r' && s[i] != '\n'
  }

  predicate FoldMark(c: char) {
    c in {' ', '\t', '+'}
  }

  /** A comment, or a line that starts like an attribute and has no colon. */
  predicate Ignored(line: string) {
    && OneLine(line) && line != ""
    && (line[0] == '%' || line[0] == '#' || (!FoldMark(line[0]) && ':' !in line))
  }

  /** A continuation line: nothing to continue before the first attribute of an object. */
  predicate Stray(line: string) {
    OneLine(line) && line != "" && FoldMark(line[0])
  }

  predicate AllIgnored(lines: seq<string>) {
    forall i :: 0 <= i < |lines| ==> Ignored(lines[i])
  }

  /** Lines before the first attribute of an object. */
  predicate AllSkipped(lines: seq<string>) {
    forall i :: 0 <= i < |lines| ==> Ignored(lines[i]) || Stray(lines[i])
  }

  predicate NoLeadingSpace(s: string) {
    s == "" || !IsSpace(s[0])
  }

  predicate Pad(s: string) {
    AllSpace(s) && OneLine(s)
  }

  predicate FoldText(f: Fold) {
    FoldMark(f.marker) && Pad(f.pad) && NoLeadingSpace(f.text) && OneLine(f.text)
  }

  predicate WellFormedFold(f: Fold) {
    AllIgnored(f.noise) && FoldText(f)
  }

  predicate WellFormedKey(key: string) {
    OneLine(key) && ':' !in key && (key != "" ==> !IsSpace(key[0]) && !IsSpace(key[|key| - 1]))
  }

  /** The characters before the value. */
  function Head(a: AttrLine): string {
    a.indent + a.key + a.keyPad
  }

  predicate AttrText(a: AttrLine) {
    && Pad(a.indent) && WellFormedKey(a.key) && Pad(a.keyPad) && Pad(a.pad)
    && NoLeadingSpace(a.first) && OneLine(a.first)
    && (Head(a) != "" ==> !FoldMark(Head(a)[0]) && Head(a)[0] != '%' && Head(a)[0] != '#')
  }

  predicate FoldsWellFormed(folds: seq<Fold>) {
    forall i :: 0 <= i < |folds| ==> WellFormedFold(folds[i])
  }

  predicate WellFormedAttr(a: AttrLine, first: bool) {
    (if first then AllSkipped(a.noise) else AllIgnored(a.noise)) && AttrText(a) && FoldsWellFormed(a.folds)
  }

  predicate WellFormedAttrs(attrs: seq<AttrLine>) {
    forall i :: 0 <= i < |attrs| ==> WellFormedAttr(attrs[i], i == 0)
  }

  predicate WellFormedObject(o: DocObject) {
    WellFormedAttrs(o.attrs) && if o.attrs == [] then AllSkipped(o.noise) else AllIgnored(o.noise)
  }

  /** Objects are separated by at least one blank line; the last one may end the file. */
  predicate WellFormed(doc: seq<DocObject>) {
    && (forall i :: 0 <= i < |doc| ==> WellFormedObject(doc[i]))
    && (forall i :: 0 <= i < |doc| - 1 ==> doc[i].gap >= 1)
  }

  // ---------------------------------------------------------------- what a document means

  function Joined(value: string, folds: seq<Fold>): string {
    if folds == [] then value
    else
      var init, text := Joined(value, folds[..|folds| - 1]), folds[|folds| - 1].text;
      if text == "" then init else init + " " + text
  }

  function AttrValue(a: AttrLine): string {
    Joined(a.first, a.folds)
  }

  function ObjectMeaning(attrs: seq<AttrLine>): RpslObject {
    if attrs == [] then []
    else
      var last := attrs[|attrs| - 1];
      Add(ObjectMeaning(attrs[..|attrs| - 1]), Lower(last.key), AttrValue(last))
  }

  function ObjectsOf(o: DocObject): seq<RpslObject> {
    if o.attrs == [] then [] else [ObjectMeaning(o.attrs)]
  }

  function Meaning(doc: seq<DocObject>): seq<RpslObject> {
    if doc == [] then [] else Meaning(doc[..|doc| - 1]) + ObjectsOf(doc[|doc| - 1])
  }

  // ---------------------------------------------------------------- printing

  function FoldLines(folds: seq<Fold>): seq<string> {
    if folds == [] then []
    else
      var f := folds[|folds| - 1];
      FoldLines(folds[..|folds| - 1]) + f.noise + [FoldLine(f)]
  }

  function FoldLine(f: Fold): string {
    [f.marker] + f.pad + f.text
  }

  function KeyLine(a: AttrLine): string {
    Head(a) + ":" + (a.pad + a.first)
  }

  function AttrLines(attrs: seq<AttrLine>): seq<string> {
    if attrs == [] then []
    else
      var a := attrs[|attrs| - 1];
      AttrLines(attrs[..|attrs| - 1]) + a.noise + [KeyLine(a)] + FoldLines(a.folds)
  }

  function Blanks(n: nat): seq<string> {
    if n == 0 then [] else Blanks(n - 1) + [""]
  }

  function DocLines(doc: seq<DocObject>): seq<string> {
    if doc == [] then []
    else
      var o := doc[|doc| - 1];
      DocLines(doc[..|doc| - 1]) + AttrLines(o.attrs) + o.noise + Blanks(o.gap)
  }

  /** The file: every line followed by the same line ending. */
  function Print(lines: seq<string>, eol: string): seq<string> {
    if lines == [] then [] else Print(lines[..|lines| - 1], eol) + [lines[|lines| - 1] + eol]
  }

  // ---------------------------------------------------------------- lines read back

  lemma ColonSplits(head: string, tail: string)
    requires forall k :: 0 <= k < |head| ==> head[k] != ':'
    ensures var line := head + ":" + tail;
            IndexOf(line, ':') == |head| && line[..|head|] == head && line[|head| + 1..] == tail
  {
    var line := head + ":" + tail;
    assert line[|head|] == ':' && forall k :: 0 <= k < |head| ==> line[k] == head[k];
  }

  lemma HeadStrips(a: AttrLine)
    requires AttrText(a)
    ensures Strip(Head(a)) == a.key && ':' !in Head(a)
  {
    hide Strip;
    if a.key == "" {
      NothingAdded(a.indent);
      assert AllSpace(a.indent + a.keyPad);
      BlankStrips(a.indent + a.keyPad);
    } else {
      StripPadding(a.indent, a.key, a.keyPad);
    }
    assert ':' !in a.indent && ':' !in a.keyPad;
  }

  lemma {:induction false} BlankStrips(s: string)
    requires AllSpace(s)
    ensures Strip(s) == ""
  {
    NothingAdded(s);
    LStripPadding(s, "");
  }

  lemma KeyLineReadsBack(a: AttrLine)
    requires AttrText(a)
    ensures KeyLine(a) != "" && Classify(KeyLine(a)) == Attribute(Lower(a.key), a.first)
  {
    hide IndexOf, Strip, LStrip, Lower;
    var head := Head(a);
    HeadStrips(a);
    ColonSplits(head, a.pad + a.first);
    LStripPadding(a.pad, a.first);
    hide AttrText, Head;
    KeyLineStarts(a);
  }

  lemma KeyLineStarts(a: AttrLine)
    requires AttrText(a)
    ensures var line := KeyLine(a);
            line != "" && line[0] != '%' && line[0] != '#' && line[0] != ' ' && line[0] != '\t' && line[0] != '+'
  {
    hide WellFormedKey, Pad, NoLeadingSpace;
    var head, line := Head(a), KeyLine(a);
    assert line[0] == if head == "" then ':' else head[0];
  }

  lemma FoldLineReadsBack(f: Fold)
    requires FoldText(f)
    ensures FoldLine(f) != "" && Classify(FoldLine(f)) == Continuation(f.text)
  {
    var line := FoldLine(f);
    assert line[0] == f.marker;
    if f.marker == '+' {
      assert line[1..] == f.pad + f.text;
      LStripPadding(f.pad, f.text);
    } else {
      LStripPadding([f.marker] + f.pad, f.text);
    }
  }

  lemma IgnoredReadsBack(line: string)
    requires Ignored(line)
    ensures Classify(line).Comment? || Classify(line).Malformed?
  {
    hide Lower, Strip, LStrip;
    if line[0] != '%' && line[0] != '#' {
      assert IndexOf(line, ':') == |line|;
    }
  }

  lemma StrayReadsBack(line: string)
    requires Stray(line)
    ensures Classify(line).Continuation?
  {
  }

  lemma {:induction false} NoiseIsIgnored(o: Open, noise: seq<string>)
    requires AllIgnored(noise)
    ensures TakeAll(o, noise) == o
  {
    if noise != [] {
      NoiseIsIgnored(o, noise[..|noise| - 1]);
      IgnoredReadsBack(noise[|noise| - 1]);
      hide Classify;
    }
  }

  lemma {:induction false} SkippedLinesDoNothing(noise: seq<string>)
    requires AllSkipped(noise)
    ensures TakeAll(NOTHING, noise) == NOTHING
  {
    if noise != [] {
      var last := noise[|noise| - 1];
      SkippedLinesDoNothing(noise[..|noise| - 1]);
      if Ignored(last) {
        IgnoredReadsBack(last);
      } else {
        StrayReadsBack(last);
      }
      hide Classify;
    }
  }

  lemma {:induction false} ExtendAfterAdd(obj: RpslObject, key: string, value: string, text: string)
    ensures Extend(Add(obj, key, value), key, text) == Add(obj, key, value + " " + text)
  {
    if obj == [] {
      assert Glued([value], text) == [value + " " + text];
    } else if obj[0].key == key {
      var values := obj[0].values + [value];
      assert Glued(values, text) == obj[0].values + [value + " " + text];
    } else {
      ExtendAfterAdd(obj[1..], key, value, text);
      assert Add(obj, key, value)[1..] == Add(obj[1..], key, value);
    }
  }

  lemma {:induction false} FoldsExtend(obj: RpslObject, key: string, value: string, folds: seq<Fold>)
    requires FoldsWellFormed(folds)
    ensures TakeAll(Open(Add(obj, key, value), Some(key)), FoldLines(folds))
         == Open(Add(obj, key, Joined(value, folds)), Some(key))
  {
    if folds != [] {
      var init, f := folds[..|folds| - 1], folds[|folds| - 1];
      FoldsExtend(obj, key, value, init);
      var start, sofar := Open(Add(obj, key, value), Some(key)), Open(Add(obj, key, Joined(value, init)), Some(key));
      var line := FoldLine(f);
      NoiseIsIgnored(sofar, f.noise);
      TakeAllConcat(start, FoldLines(init), f.noise);
      TakeOneMore(start, FoldLines(init) + f.noise, line);
      FoldLineReadsBack(f);
      ExtendAfterAdd(obj, key, Joined(value, init), f.text);
    }
  }

  lemma TakeOneMore(o: Open, lines: seq<string>, line: string)
    ensures TakeAll(o, lines + [line]) == Take(TakeAll(o, lines), line)
  {
    assert (lines + [line])[..|lines|] == lines;
  }

  lemma {:induction false} AttrsReadBack(attrs: seq<AttrLine>)
    requires WellFormedAttrs(attrs)
    ensures TakeAll(NOTHING, AttrLines(attrs)).obj == ObjectMeaning(attrs)
    ensures attrs == [] ==> TakeAll(NOTHING, AttrLines(attrs)) == NOTHING
  {
    if attrs != [] {
      var init, a := attrs[..|attrs| - 1], attrs[|attrs| - 1];
      AttrsReadBack(init);
      var o := TakeAll(NOTHING, AttrLines(init));
      TakeAllConcat(NOTHING, AttrLines(init), a.noise);
      if init == [] {
        SkippedLinesDoNothing(a.noise);
      } else {
        NoiseIsIgnored(o, a.noise);
      }
      TakeOneMore(NOTHING, AttrLines(init) + a.noise, KeyLine(a));
      KeyLineReadsBack(a);
      TakeAllConcat(NOTHING, AttrLines(init) + a.noise + [KeyLine(a)], FoldLines(a.folds));
      FoldsExtend(o.obj, Lower(a.key), a.first, a.folds);
    }
  }

  // ---------------------------------------------------------------- no line is blank or broken

  ghost predicate Solid(lines: seq<string>) {
    forall i :: 0 <= i < |lines| ==> lines[i] != "" && OneLine(lines[i])
  }

  lemma {:induction false} FoldLinesSolid(folds: seq<Fold>)
    requires FoldsWellFormed(folds)
    ensures Solid(FoldLines(folds))
  {
    if folds != [] {
      FoldLinesSolid(folds[..|folds| - 1]);
      SkippedSolid(folds[|folds| - 1].noise);
    }
  }

  lemma SkippedSolid(noise: seq<string>)
    requires AllSkipped(noise)
    ensures Solid(noise)
  {
    forall i | 0 <= i < |noise|
      ensures noise[i] != "" && OneLine(noise[i])
    {
      assert Ignored(noise[i]) || Stray(noise[i]);
    }
  }

  lemma KeyLineSolid(a: AttrLine)
    requires AttrText(a)
    ensures KeyLine(a) != "" && OneLine(KeyLine(a))
  {
    hide IsSpace;
    assert OneLine(Head(a)) && OneLine(":") && OneLine(a.pad + a.first);
  }

  lemma {:induction false} AttrLinesSolid(attrs: seq<AttrLine>)
    requires WellFormedAttrs(attrs)
    ensures Solid(AttrLines(attrs))
  {
    if attrs != [] {
      var a := attrs[|attrs| - 1];
      assert WellFormedAttr(a, |attrs| == 1);
      AttrLinesSolid(attrs[..|attrs| - 1]);
      SkippedSolid(a.noise);
      FoldLinesSolid(a.folds);
      KeyLineSolid(a);
    }
  }

  // ---------------------------------------------------------------- the round trip on lines

  lemma {:induction false} AddNonEmpty(attrs: seq<AttrLine>)
    ensures attrs != [] ==> ObjectMeaning(attrs) != []
  {
    if attrs != [] {
      var a := attrs[|attrs| - 1];
      AddHasKey(ObjectMeaning(attrs[..|attrs| - 1]), Lower(a.key), AttrValue(a));
    }
  }

  lemma ObjectReadsBack(o: DocObject)
    requires WellFormedObject(o)
    ensures Parse(AttrLines(o.attrs) + o.noise) == ObjectsOf(o)
    ensures Solid(AttrLines(o.attrs) + o.noise)
  {
    AttrLinesSolid(o.attrs);
    SkippedSolid(o.noise);
    var lines := AttrLines(o.attrs) + o.noise;
    assert "" !in lines;
    ParseParagraph(lines);
    AttrsReadBack(o.attrs);
    TakeAllConcat(NOTHING, AttrLines(o.attrs), o.noise);
    if o.attrs == [] {
      SkippedLinesDoNothing(o.noise);
    } else {
      NoiseIsIgnored(TakeAll(NOTHING, AttrLines(o.attrs)), o.noise);
      AddNonEmpty(o.attrs);
    }
  }

  lemma ParseNothing()
    ensures Parse([]) == []
  {
    ParseParagraph([]);
  }

  lemma OneBlankAddsNothing(lines: seq<string>)
    ensures Parse(lines + [""]) == Parse(lines)
  {
    hide Parse;
    ParseNothing();
    ParseSplitsAtBlank(lines, []);
    assert lines + [""] == lines + [""] + [];
  }

  lemma {:induction false} BlanksAddNothing(lines: seq<string>, n: nat)
    ensures Parse(lines + Blanks(n)) == Parse(lines)
  {
    hide Parse;
    if n == 0 {
      assert lines + Blanks(n) == lines;
    } else {
      BlanksAddNothing(lines, n - 1);
      OneBlankAddsNothing(lines + Blanks(n - 1));
      assert lines + Blanks(n) == (lines + Blanks(n - 1)) + [""];
    }
  }

  /** Appending an object after at least one blank line, or at the start of the file. */
  lemma AppendObject(before: seq<string>, blanks: nat, o: DocObject)
    requires WellFormedObject(o) && (blanks >= 1 || before == [])
    ensures Parse(before + Blanks(blanks) + AttrLines(o.attrs) + o.noise) == Parse(before) + ObjectsOf(o)
  {
    hide Parse, AttrLines, ObjectsOf, WellFormedObject;
    var lines := AttrLines(o.attrs) + o.noise;
    ObjectReadsBack(o);
    assert before + Blanks(blanks) + AttrLines(o.attrs) + o.noise == before + Blanks(blanks) + lines;
    if blanks == 0 {
      ParseNothing();
      assert before + Blanks(0) + lines == lines;
    } else {
      BlanksAddNothing(before, blanks - 1);
      ParseSplitsAtBlank(before + Blanks(blanks - 1), lines);
      assert before + Blanks(blanks) + lines == (before + Blanks(blanks - 1)) + [""] + lines;
    }
  }

  /** The lines of a document without the blank lines at its end. */
  function Trimmed(doc: seq<DocObject>): seq<string>
    requires doc != []
  {
    var o := doc[|doc| - 1];
    DocLines(doc[..|doc| - 1]) + AttrLines(o.attrs) + o.noise
  }

  lemma {:induction false} LinesReadBack(doc: seq<DocObject>)
    requires WellFormed(doc)
    ensures Parse(DocLines(doc)) == Meaning(doc)
    ensures doc != [] ==> Parse(Trimmed(doc)) == Meaning(doc)
  {
    if doc == [] {
      ParseNothing();
    } else {
      var init, o := doc[..|doc| - 1], doc[|doc| - 1];
      LinesReadBack(init);
      if init == [] {
        AppendObject([], 0, o);
        assert [] + Blanks(0) + AttrLines(o.attrs) + o.noise == Trimmed(doc);
        ParseNothing();
      } else {
        var p := init[|init| - 1];
        assert doc[|doc| - 2] == p && p.gap >= 1;
        AppendObject(Trimmed(init), p.gap, o);
      }
      BlanksAddNothing(Trimmed(doc), o.gap);
    }
  }

  // ---------------------------------------------------------------- the round trip on files

  ghost predicate OneLines(lines: seq<string>) {
    forall i :: 0 <= i < |lines| ==> OneLine(lines[i])
  }

  lemma {:induction false} DocLinesOneLine(doc: seq<DocObject>)
    requires WellFormed(doc)
    ensures OneLines(DocLines(doc))
  {
    if doc != [] {
      hide WellFormedObject, AttrLines, Blanks, OneLines;
      var o := doc[|doc| - 1];
      DocLinesOneLine(doc[..|doc| - 1]);
      ObjectOneLines(o);
      BlanksAreEmpty(o.gap);
      OneLinesConcat(DocLines(doc[..|doc| - 1]), AttrLines(o.attrs));
      OneLinesConcat(DocLines(doc[..|doc| - 1]) + AttrLines(o.attrs), o.noise);
      OneLinesConcat(DocLines(doc[..|doc| - 1]) + AttrLines(o.attrs) + o.noise, Blanks(o.gap));
    }
  }

  lemma ObjectOneLines(o: DocObject)
    requires WellFormedObject(o)
    ensures OneLines(AttrLines(o.attrs)) && OneLines(o.noise)
  {
    AttrLinesSolid(o.attrs);
    SkippedSolid(o.noise);
  }

  lemma OneLinesConcat(xs: seq<string>, ys: seq<string>)
    requires OneLines(xs) && OneLines(ys)
    ensures OneLines(xs + ys)
  {
  }

  lemma {:induction false} BlanksAreEmpty(n: nat)
    ensures OneLines(Blanks(n))
  {
    if n > 0 {
      BlanksAreEmpty(n - 1);
    }
  }

  lemma {:induction false} PrintStrips(lines: seq<string>, eol: string)
    requires OneLines(lines) && forall i :: 0 <= i < |eol| ==> IsEol(eol[i])
    ensures Stripped(Print(lines, eol)) == lines
  {
    if lines != [] {
      var init, last := lines[..|lines| - 1], lines[|lines| - 1];
      PrintStrips(init, eol);
      assert OneLine(last);
      StripEolOnly(last, eol);
      hide StripEol;
      var printed := Print(lines, eol);
      assert printed == Print(init, eol) + [last + eol] && printed[..|printed| - 1] == Print(init, eol);
    }
  }

  /** Printing a document and parsing the file gives what the document means. */
  lemma RoundTrip(doc: seq<DocObject>, eol: string)
    requires WellFormed(doc) && forall i :: 0 <= i < |eol| ==> eol[i] == '\r' || eol[i] == '\n'
    ensures Parse(Stripped(Print(DocLines(doc), eol))) == Meaning(doc)
  {
    DocLinesOneLine(doc);
    PrintStrips(DocLines(doc), eol);
    LinesReadBack(doc);
  }

  // ---------------------------------------------------------------- what the dictionary of an object is

  function KeysOf(obj: RpslObject): seq<string> {
    seq(|obj|, i requires 0 <= i < |obj| => obj[i].key)
  }

  /** The lower-case keys of the lines, each where it occurs first. */
  function FirstOccurrences(attrs: seq<AttrLine>): seq<string> {
    if attrs == [] then []
    else
      var init, key := FirstOccurrences(attrs[..|attrs| - 1]), Lower(attrs[|attrs| - 1].key);
      if key in init then init else init + [key]
  }

  /** The unfolded values of the lines with this key, in order. */
  function LineValues(attrs: seq<AttrLine>, key: string): seq<string> {
    if attrs == [] then []
    else
      var init, last := LineValues(attrs[..|attrs| - 1], key), attrs[|attrs| - 1];
      if Lower(last.key) == key then init + [AttrValue(last)] else init
  }

  lemma {:induction false} AddKeys(obj: RpslObject, key: string, value: string)
    ensures KeysOf(Add(obj, key, value)) == if key in KeysOf(obj) then KeysOf(obj) else KeysOf(obj) + [key]
  {
    if obj == [] || obj[0].key == key {
      assert obj != [] ==> KeysOf(obj)[0] == key;
    } else {
      AddKeys(obj[1..], key, value);
      KeysOfTail(obj);
      KeysOfTail(Add(obj, key, value));
    }
  }

  lemma KeysOfTail(obj: RpslObject)
    requires obj != []
    ensures KeysOf(obj) == [obj[0].key] + KeysOf(obj[1..])
  {
  }

  lemma {:induction false} AddValues(obj: RpslObject, key: string, value: string, k: string)
    ensures Values(Add(obj, key, value), k) == if k == key then Values(obj, k) + [value] else Values(obj, k)
  {
    if obj != [] && obj[0].key != key {
      AddValues(obj[1..], key, value, k);
      assert Add(obj, key, value)[1..] == Add(obj[1..], key, value);
    }
  }

  /** The dictionary of an object, said without the parser: keys in order of first occurrence, values in line order. */
  lemma {:induction false} MeaningIsFirstOccurrences(attrs: seq<AttrLine>)
    ensures KeysOf(ObjectMeaning(attrs)) == FirstOccurrences(attrs)
    ensures forall k :: Values(ObjectMeaning(attrs), k) == LineValues(attrs, k)
  {
    if attrs != [] {
      hide Add, Lower, AttrValue, KeysOf, Values;
      var init, last := attrs[..|attrs| - 1], attrs[|attrs| - 1];
      MeaningIsFirstOccurrences(init);
      AddKeys(ObjectMeaning(init), Lower(last.key), AttrValue(last));
      forall k
        ensures Values(ObjectMeaning(attrs), k) == LineValues(attrs, k)
      {
        AddValues(ObjectMeaning(init), Lower(last.key), AttrValue(last), k);
      }
    }
    assert KeysOf([]) == [];
  }

  predicate DistinctKeys(obj: RpslObject) {
    forall i, j :: 0 <= i < j < |obj| ==> obj[i].key != obj[j].key
  }

  /** The values of an object whose keys are distinct are those of its entries. */
  lemma {:induction false} ValuesOfEntry(obj: RpslObject, i: nat)
    requires DistinctKeys(obj) && i < |obj|
    ensures Values(obj, obj[i].key) == obj[i].values
  {
    if i > 0 {
      ValuesOfEntry(obj[1..], i - 1);
      assert obj[0].key != obj[i].key;
    }
  }

  /** Keys in order and the values of each key determine a dictionary. */
  lemma SameKeysSameValues(a: RpslObject, b: RpslObject)
    requires DistinctKeys(a) && KeysOf(a) == KeysOf(b) && forall k :: Values(a, k) == Values(b, k)
    ensures a == b
  {
    assert |a| == |KeysOf(a)| == |b|;
    assert forall i :: 0 <= i < |a| ==> KeysOf(a)[i] == a[i].key && KeysOf(b)[i] == b[i].key;
    forall i | 0 <= i < |a|
      ensures a[i] == b[i]
    {
      ValuesOfEntry(a, i);
      ValuesOfEntry(b, i);
    }
  }

  /**
   * These lines print the object, in whatever folding, padding, case and interleaving: its keys in
   * the order in which they occur first, and the values of every key in order.
   */
  ghost predicate Prints(attrs: seq<AttrLine>, obj: RpslObject) {
    DistinctKeys(obj) && FirstOccurrences(attrs) == KeysOf(obj) && forall k :: LineValues(attrs, k) == Values(obj, k)
  }

  /** The parts of a document that are objects. */
  function Objects(doc: seq<DocObject>): seq<DocObject> {
    if doc == [] then []
    else
      var init, last := Objects(doc[..|doc| - 1]), doc[|doc| - 1];
      if last.attrs == [] then init else init + [last]
  }

  ghost predicate PairwisePrints(parts: seq<DocObject>, objs: seq<RpslObject>) {
    |parts| == |objs| && forall i :: 0 <= i < |objs| ==> Prints(parts[i].attrs, objs[i])
  }

  ghost predicate PrintsAll(doc: seq<DocObject>, objs: seq<RpslObject>) {
    PairwisePrints(Objects(doc), objs)
  }

  lemma LastPrints(parts: seq<DocObject>, part: DocObject, objs: seq<RpslObject>)
    requires PairwisePrints(parts + [part], objs)
    ensures objs != [] && PairwisePrints(parts, objs[..|objs| - 1]) && Prints(part.attrs, objs[|objs| - 1])
  {
    hide Prints;
    var all := parts + [part];
    assert all[|parts|] == part && forall i :: 0 <= i < |parts| ==> all[i] == parts[i];
  }

  lemma {:induction false} MeaningOfPrints(doc: seq<DocObject>, objs: seq<RpslObject>)
    requires PrintsAll(doc, objs)
    ensures Meaning(doc) == objs
  {
    if doc != [] {
      hide Prints, PairwisePrints, ObjectMeaning;
      var init, last := doc[..|doc| - 1], doc[|doc| - 1];
      if last.attrs == [] {
        MeaningOfPrints(init, objs);
      } else {
        LastPrints(Objects(init), last, objs);
        MeaningOfPrints(init, objs[..|objs| - 1]);
        PrintedMeaning(last.attrs, objs[|objs| - 1]);
        InitAndLast(objs);
      }
    }
  }

  lemma PrintedMeaning(attrs: seq<AttrLine>, obj: RpslObject)
    requires Prints(attrs, obj)
    ensures ObjectMeaning(attrs) == obj
  {
    MeaningIsFirstOccurrences(attrs);
    hide Values, KeysOf, ObjectMeaning, LineValues;
    SameKeysSameValues(obj, ObjectMeaning(attrs));
  }

  /** Every print of given objects parses to those objects: same keys, same values, same order. */
  lemma AnyPrintRoundTrips(doc: seq<DocObject>, objs: seq<RpslObject>, eol: string)
    requires WellFormed(doc) && forall i :: 0 <= i < |eol| ==> eol[i] == '\r' || eol[i] == '\n'
    requires PrintsAll(doc, objs)
    ensures Parse(Stripped(Print(DocLines(doc), eol))) == objs
  {
    RoundTrip(doc, eol);
    MeaningOfPrints(doc, objs);
  }

  // ---------------------------------------------------------------- every object can be printed

  predicate WellFormedValue(value: string) {
    NoLeadingSpace(value) && OneLine(value)
  }

  predicate PrintableKey(key: string) {
    WellFormedKey(key) && (key != "" ==> key[0] !in {'%', '#', '+'})
  }

  /** A dictionary as the parser yields it: distinct lower-case keys, at least one value each. */
  predicate Printable(obj: RpslObject) {
    && obj != []
    && (forall i :: 0 <= i < |obj| ==>
          PrintableKey(obj[i].key) && Lower(obj[i].key) == obj[i].key && obj[i].values != []
          && forall j :: 0 <= j < |obj[i].values| ==> WellFormedValue(obj[i].values[j]))
    && DistinctKeys(obj)
  }

  function ValueLines(key: string, values: seq<string>): seq<AttrLine> {
    if values == [] then []
    else ValueLines(key, values[..|values| - 1]) + [AttrLine([], "", key, "", " ", values[|values| - 1], [])]
  }

  /** One `key: value` line per value, keys in order. */
  function PlainLines(obj: RpslObject): seq<AttrLine> {
    if obj == [] then []
    else PlainLines(obj[..|obj| - 1]) + ValueLines(obj[|obj| - 1].key, obj[|obj| - 1].values)
  }

  lemma {:induction false} AddNewKey(obj: RpslObject, key: string, value: string)
    requires forall i :: 0 <= i < |obj| ==> obj[i].key != key
    ensures Add(obj, key, value) == obj + [Attr(key, [value])]
  {
    if obj != [] {
      AddNewKey(obj[1..], key, value);
    }
  }

  lemma {:induction false} AddLastKey(obj: RpslObject, last: Attr, value: string)
    requires forall i :: 0 <= i < |obj| ==> obj[i].key != last.key
    ensures Add(obj + [last], last.key, value) == obj + [Attr(last.key, last.values + [value])]
  {
    if obj == [] {
      assert obj + [last] == [last];
    } else {
      AddLastKey(obj[1..], last, value);
      assert (obj + [last])[1..] == obj[1..] + [last];
    }
  }

  lemma ValueLineAdds(attrs: seq<AttrLine>, key: string, values: seq<string>)
    requires Lower(key) == key && values != []
    ensures ObjectMeaning(attrs + ValueLines(key, values))
         == Add(ObjectMeaning(attrs + ValueLines(key, values[..|values| - 1])), key, values[|values| - 1])
  {
    hide Lower, Add;
    var all := attrs + ValueLines(key, values);
    assert all[..|all| - 1] == attrs + ValueLines(key, values[..|values| - 1]);
  }

  /** Adding a value to a key that is new, or that is the last one. */
  lemma AddToLastKey(obj: RpslObject, key: string, init: seq<string>, value: string)
    requires forall i :: 0 <= i < |obj| ==> obj[i].key != key
    ensures Add(obj + Entry(key, init), key, value) == obj + [Attr(key, init + [value])]
  {
    if init == [] {
      assert obj + [] == obj && init + [value] == [value];
      AddNewKey(obj, key, value);
    } else {
      AddLastKey(obj, Attr(key, init), value);
    }
  }

  lemma NoValueNoLine(attrs: seq<AttrLine>, key: string)
    ensures attrs + ValueLines(key, []) == attrs
  {
  }

  /** The entry of a key, if it has a value. */
  function Entry(key: string, values: seq<string>): RpslObject {
    if values == [] then [] else [Attr(key, values)]
  }

  lemma {:induction false} MeaningConcat(attrs: seq<AttrLine>, key: string, values: seq<string>)
    requires Lower(key) == key
    requires forall i :: 0 <= i < |ObjectMeaning(attrs)| ==> ObjectMeaning(attrs)[i].key != key
    ensures ObjectMeaning(attrs + ValueLines(key, values)) == ObjectMeaning(attrs) + Entry(key, values)
  {
    hide ObjectMeaning, ValueLines, Lower, Add;
    if values == [] {
      NoValueNoLine(attrs, key);
      assert ObjectMeaning(attrs) + [] == ObjectMeaning(attrs);
    } else {
      var init, last := values[..|values| - 1], values[|values| - 1];
      MeaningConcat(attrs, key, init);
      ValueLineAdds(attrs, key, values);
      AddToLastKey(ObjectMeaning(attrs), key, init, last);
      assert values == init + [last];
    }
  }

  lemma PrintablePrefix(obj: RpslObject)
    requires Printable(obj)
    ensures var init, last := obj[..|obj| - 1], obj[|obj| - 1];
            && (init != [] ==> Printable(init))
            && Lower(last.key) == last.key && last.values != []
            && forall i :: 0 <= i < |init| ==> init[i].key != last.key
  {
    hide PrintableKey, WellFormedValue, Lower;
  }

  lemma EntryOf(a: Attr)
    requires a.values != []
    ensures Entry(a.key, a.values) == [a]
  {
  }

  lemma InitAndLast<T>(s: seq<T>)
    requires s != []
    ensures s == s[..|s| - 1] + [s[|s| - 1]]
  {
  }

  lemma {:induction false} PlainLinesMeanTheObject(obj: RpslObject)
    requires obj != [] ==> Printable(obj)
    ensures ObjectMeaning(PlainLines(obj)) == obj
  {
    if obj != [] {
      hide ObjectMeaning, ValueLines, Printable, Lower, Entry;
      var init, last := obj[..|obj| - 1], obj[|obj| - 1];
      PrintablePrefix(obj);
      PlainLinesMeanTheObject(init);
      MeaningConcat(PlainLines(init), last.key, last.values);
      EntryOf(last);
      InitAndLast(obj);
    }
  }

  predicate PlainAttrs(attrs: seq<AttrLine>) {
    forall i :: 0 <= i < |attrs| ==> AllIgnored(attrs[i].noise) && AttrText(attrs[i]) && FoldsWellFormed(attrs[i].folds)
  }

  lemma PlainLineWellFormed(key: string, value: string)
    requires PrintableKey(key) && WellFormedValue(value)
    ensures AttrText(AttrLine([], "", key, "", " ", value, []))
  {
    var a := AttrLine([], "", key, "", " ", value, []);
    NothingAdded(key);
    assert Head(a) == key;
    assert IsSpace(' ');
  }

  lemma {:induction false} ValueLinesWellFormed(key: string, values: seq<string>)
    requires PrintableKey(key) && forall j :: 0 <= j < |values| ==> WellFormedValue(values[j])
    ensures PlainAttrs(ValueLines(key, values))
    ensures values != [] ==> ValueLines(key, values) != []
  {
    if values != [] {
      ValueLinesWellFormed(key, values[..|values| - 1]);
      PlainLineWellFormed(key, values[|values| - 1]);
      hide AttrText, PrintableKey, WellFormedValue;
    }
  }

  lemma {:induction false} PlainLinesWellFormed(obj: RpslObject)
    requires obj != [] ==> Printable(obj)
    ensures PlainAttrs(PlainLines(obj))
    ensures obj != [] ==> PlainLines(obj) != []
  {
    if obj != [] {
      PlainLinesWellFormed(obj[..|obj| - 1]);
      ValueLinesWellFormed(obj[|obj| - 1].key, obj[|obj| - 1].values);
      hide AttrText, PrintableKey, WellFormedValue, ValueLines;
    }
  }

  function PlainDoc(objs: seq<RpslObject>): (doc: seq<DocObject>)
    ensures |doc| == |objs|
    ensures forall i :: 0 <= i < |objs| ==> doc[i] == DocObject(PlainLines(objs[i]), [], 1)
  {
    if objs == [] then [] else PlainDoc(objs[..|objs| - 1]) + [DocObject(PlainLines(objs[|objs| - 1]), [], 1)]
  }

  lemma {:induction false} PlainDocWellFormed(objs: seq<RpslObject>)
    requires forall i :: 0 <= i < |objs| ==> Printable(objs[i])
    ensures WellFormed(PlainDoc(objs))
  {
    hide PlainDoc, PlainLines, Printable;
    forall i | 0 <= i < |objs|
      ensures WellFormedObject(PlainDoc(objs)[i])
    {
      assert Printable(objs[i]);
      PrintableIsNotEmpty(objs[i]);
      PlainLinesWellFormed(objs[i]);
      assert WellFormedAttrs(PlainLines(objs[i]));
    }
  }

  lemma PrintableIsNotEmpty(obj: RpslObject)
    requires Printable(obj)
    ensures obj != []
  {
  }

  lemma PlainDocOneMore(objs: seq<RpslObject>, last: RpslObject)
    requires Printable(last)
    ensures Meaning(PlainDoc(objs + [last])) == Meaning(PlainDoc(objs)) + [last]
  {
    PlainLinesMeanTheObject(last);
    hide ObjectMeaning, PlainLines, Printable, Meaning;
    assert (objs + [last])[..|objs|] == objs;
    assert PlainDoc(objs + [last]) == PlainDoc(objs) + [DocObject(PlainLines(last), [], 1)];
    MeaningOneMore(PlainDoc(objs), DocObject(PlainLines(last), [], 1));
  }

  lemma {:induction false} PlainDocMeansTheObjects(objs: seq<RpslObject>)
    requires forall i :: 0 <= i < |objs| ==> Printable(objs[i])
    ensures Meaning(PlainDoc(objs)) == objs
  {
    if objs != [] {
      hide PlainDoc, Meaning, Printable;
      var init, last := objs[..|objs| - 1], objs[|objs| - 1];
      PlainDocMeansTheObjects(init);
      PlainDocOneMore(init, last);
      InitAndLast(objs);
    }
  }

  lemma MeaningOneMore(doc: seq<DocObject>, o: DocObject)
    ensures Meaning(doc + [o]) == Meaning(doc) + ObjectsOf(o)
  {
    assert (doc + [o])[..|doc|] == doc;
  }

  /** Every list of objects survives printing and parsing. */
  lemma ObjectsRoundTrip(objs: seq<RpslObject>, eol: string)
    requires forall i :: 0 <= i < |objs| ==> Printable(objs[i])
    requires forall i :: 0 <= i < |eol| ==> eol[i] == '\r' || eol[i] == '\n'
    ensures Parse(Stripped(Print(DocLines(PlainDoc(objs)), eol))) == objs
  {
    PlainDocWellFormed(objs);
    PlainDocMeansTheObjects(objs);
    RoundTrip(PlainDoc(objs), eol);
  }
}
