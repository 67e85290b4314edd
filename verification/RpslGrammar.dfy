/**
 * The grammar of `RpslPrinter` leaves no file out: every sequence of lines is a document, so what a
 * document means is what the parser makes of any file.
 */
module RpslGrammar {
  import opened Prelude
  import opened PyText
  import opened RpslParser
  import opened RpslPrinter

  // ---------------------------------------------------------------- one line read as an attribute or a continuation

  lemma OneLinePart(s: string, i: nat, j: nat)
    requires OneLine(s) && i <= j <= |s|
    ensures OneLine(s[i..j])
  {
  }

  lemma OneLineConcat(a: string, b: string)
    ensures OneLine(a + b) <==> OneLine(a) && OneLine(b)
  {
    assert forall i :: 0 <= i < |a| ==> (a + b)[i] == a[i];
    assert forall i :: 0 <= i < |b| ==> (a + b)[|a| + i] == b[i];
  }

  /** White space, then a text that does not start with it. */
  lemma PadThenText(s: string) returns (pad: string, text: string)
    requires OneLine(s)
    ensures Pad(pad) && NoLeadingSpace(text) && OneLine(text) && s == pad + text
  {
    LStripTakesOff(s);
    text := LStrip(s);
    pad := s[..|s| - |text|];
    assert s == pad + text;
    OneLineConcat(pad, text);
  }

  lemma ReadFold(line: string, noise: seq<string>) returns (f: Fold)
    requires Stray(line)
    ensures FoldText(f) && FoldLine(f) == line && f.noise == noise
  {
    OneLinePart(line, 1, |line|);
    var pad, text := PadThenText(line[1..]);
    f := Fold(noise, line[0], pad, text);
    assert line == [line[0]] + (pad + text);
    assert FoldLine(f) == [line[0]] + pad + text;
  }

  /** A text without a colon is a key between white space. */
  lemma ReadHead(head: string) returns (indent: string, key: string, keyPad: string)
    requires OneLine(head) && ':' !in head
    ensures Pad(indent) && WellFormedKey(key) && Pad(keyPad) && head == indent + key + keyPad
  {
    indent, keyPad := StripTakesOff(head);
    key := Strip(head);
    hide Strip;
    OneLineConcat(indent + key, keyPad);
    OneLineConcat(indent, key);
    assert forall i :: 0 <= i < |key| ==> key[i] == head[|indent| + i];
  }

  predicate AttributeLine(line: string) {
    && OneLine(line) && line != "" && ':' in line
    && line[0] != '%' && line[0] != '#' && !FoldMark(line[0])
  }

  lemma ReadKeyLine(line: string, noise: seq<string>) returns (a: AttrLine)
    requires AttributeLine(line)
    ensures AttrText(a) && KeyLine(a) == line && a.noise == noise && a.folds == []
  {
    var colon := IndexOf(line, ':');
    var head, tail := line[..colon], line[colon + 1..];
    assert line == head + ":" + tail;
    OneLinePart(line, 0, colon);
    OneLinePart(line, colon + 1, |line|);
    var indent, key, keyPad := ReadHead(head);
    var pad, first := PadThenText(tail);
    a := AttrLine(noise, indent, key, keyPad, pad, first, []);
    assert Head(a) == head;
    assert head != "" ==> head[0] == line[0];
    hide Pad, WellFormedKey, IndexOf;
  }

  // ---------------------------------------------------------------- one line more

  function Body(o: DocObject): seq<string> {
    AttrLines(o.attrs) + o.noise
  }

  lemma AttributeAdded(o: DocObject, a: AttrLine)
    requires WellFormedObject(o) && AttrText(a) && a.noise == o.noise && a.folds == []
    ensures var more := DocObject(o.attrs + [a], [], o.gap);
            WellFormedObject(more) && Body(more) == Body(o) + [KeyLine(a)]
  {
    hide AttrText, KeyLine, AllIgnored, AllSkipped;
    var attrs := o.attrs + [a];
    assert attrs[..|o.attrs|] == o.attrs;
    forall i | 0 <= i < |attrs|
      ensures WellFormedAttr(attrs[i], i == 0)
    {
      assert i < |o.attrs| ==> attrs[i] == o.attrs[i] && WellFormedAttr(o.attrs[i], i == 0);
    }
    NothingIgnored();
    assert FoldLines([]) == [];
    assert AttrLines(attrs) == AttrLines(o.attrs) + o.noise + [KeyLine(a)] + [];
  }

  lemma NothingIgnored()
    ensures AllIgnored([]) && AllSkipped([])
  {
  }

  lemma FoldAdded(o: DocObject, f: Fold)
    requires WellFormedObject(o) && o.attrs != [] && FoldText(f) && f.noise == o.noise
    ensures var n := |o.attrs| - 1;
            var last := o.attrs[n];
            var more := DocObject(o.attrs[..n] + [last.(folds := last.folds + [f])], [], o.gap);
            WellFormedObject(more) && Body(more) == Body(o) + [FoldLine(f)]
  {
    hide AttrText, KeyLine, AllIgnored, AllSkipped, FoldText, FoldLine;
    var n := |o.attrs| - 1;
    var last := o.attrs[n];
    var longer := last.(folds := last.folds + [f]);
    assert WellFormedAttr(last, n == 0);
    MoreFolds(last, f);
    var attrs := o.attrs[..n] + [longer];
    assert attrs[..n] == o.attrs[..n];
    forall i | 0 <= i < |attrs|
      ensures WellFormedAttr(attrs[i], i == 0)
    {
      assert i < n ==> attrs[i] == o.attrs[i] && WellFormedAttr(o.attrs[i], i == 0);
    }
    NothingIgnored();
    var before := AttrLines(o.attrs[..n]) + last.noise + [KeyLine(last)];
    assert AttrLines(o.attrs) == before + FoldLines(last.folds);
    assert AttrLines(attrs) == before + (FoldLines(last.folds) + o.noise + [FoldLine(f)]);
    Regrouped(before, FoldLines(last.folds), o.noise, [FoldLine(f)]);
  }

  lemma Regrouped(a: seq<string>, b: seq<string>, c: seq<string>, d: seq<string>)
    ensures a + (b + c + d) + [] == ((a + b) + c) + d
  {
  }

  lemma MoreFolds(a: AttrLine, f: Fold)
    requires FoldsWellFormed(a.folds) && AllIgnored(f.noise) && FoldText(f)
    ensures var longer := a.(folds := a.folds + [f]);
            && FoldsWellFormed(longer.folds) && (AttrText(longer) <==> AttrText(a)) && KeyLine(longer) == KeyLine(a)
            && FoldLines(longer.folds) == FoldLines(a.folds) + f.noise + [FoldLine(f)]
  {
    assert (a.folds + [f])[..|a.folds|] == a.folds;
  }

  lemma NoiseAdded(o: DocObject, line: string)
    requires WellFormedObject(o) && (Ignored(line) || (o.attrs == [] && Stray(line)))
    ensures var more := o.(noise := o.noise + [line]);
            WellFormedObject(more) && Body(more) == Body(o) + [line]
  {
    hide Ignored, Stray, WellFormedAttrs;
    assert AttrLines(o.attrs) + (o.noise + [line]) == AttrLines(o.attrs) + o.noise + [line];
  }

  /** A line that is not blank belongs to the current object. */
  lemma LineAdded(o: DocObject, line: string) returns (more: DocObject)
    requires WellFormedObject(o) && OneLine(line) && line != ""
    ensures WellFormedObject(more) && more.gap == o.gap && Body(more) == Body(o) + [line]
  {
    hide WellFormedObject, Body;
    if AttributeLine(line) {
      var a := ReadKeyLine(line, o.noise);
      AttributeAdded(o, a);
      more := DocObject(o.attrs + [a], [], o.gap);
    } else if Stray(line) && o.attrs != [] {
      var f := ReadFold(line, o.noise);
      FoldAdded(o, f);
      var n := |o.attrs| - 1;
      more := DocObject(o.attrs[..n] + [o.attrs[n].(folds := o.attrs[n].folds + [f])], [], o.gap);
    } else {
      NoiseAdded(o, line);
      more := o.(noise := o.noise + [line]);
    }
  }

  lemma DocOneMore(doc: seq<DocObject>, o: DocObject)
    ensures DocLines(doc + [o]) == DocLines(doc) + Body(o) + Blanks(o.gap)
  {
    assert (doc + [o])[..|doc|] == doc;
    assert DocLines(doc) + (AttrLines(o.attrs) + o.noise) + Blanks(o.gap)
        == DocLines(doc) + AttrLines(o.attrs) + o.noise + Blanks(o.gap);
  }

  /** The document with an object at its end that has no blank lines after it yet. */
  lemma OpenObject(doc: seq<DocObject>) returns (init: seq<DocObject>, o: DocObject)
    requires WellFormed(doc)
    ensures WellFormed(init + [o]) && o.gap == 0
    ensures DocLines(init) + Body(o) == DocLines(doc)
  {
    hide WellFormedObject;
    if doc != [] && doc[|doc| - 1].gap == 0 {
      init, o := doc[..|doc| - 1], doc[|doc| - 1];
      assert doc == init + [o];
      DocOneMore(init, o);
      assert DocLines(init) + Body(o) + [] == DocLines(init) + Body(o);
    } else {
      init, o := doc, DocObject([], [], 0);
      EmptyIsWellFormed();
      assert Body(o) == [];
      assert DocLines(doc) + [] == DocLines(doc);
    }
  }

  lemma EmptyIsWellFormed()
    ensures WellFormedObject(DocObject([], [], 0))
  {
  }

  lemma BlankAdded(init: seq<DocObject>, o: DocObject)
    requires WellFormed(init + [o])
    ensures WellFormed(init + [o.(gap := o.gap + 1)])
    ensures DocLines(init + [o.(gap := o.gap + 1)]) == DocLines(init + [o]) + [""]
  {
    hide WellFormedAttrs, AllIgnored, AllSkipped;
    var before, after, more := init + [o], init + [o.(gap := o.gap + 1)], o.(gap := o.gap + 1);
    assert forall i :: 0 <= i < |init| ==> after[i] == before[i];
    assert before[|init|] == o;
    DocOneMore(init, o);
    DocOneMore(init, more);
    assert DocLines(init) + Body(o) + (Blanks(o.gap) + [""]) == DocLines(init) + Body(o) + Blanks(o.gap) + [""];
  }

  lemma LastLine(lines: seq<string>)
    requires OneLines(lines) && lines != []
    ensures OneLines(lines[..|lines| - 1]) && OneLine(lines[|lines| - 1])
    ensures lines == lines[..|lines| - 1] + [lines[|lines| - 1]]
  {
  }

  /** Every file is a document. */
  lemma {:induction false} EveryFileIsADocument(lines: seq<string>) returns (doc: seq<DocObject>)
    requires OneLines(lines)
    ensures WellFormed(doc) && DocLines(doc) == lines
  {
    if lines == [] {
      doc := [];
    } else {
      hide OneLines, WellFormed, DocLines;
      LastLine(lines);
      var d := EveryFileIsADocument(lines[..|lines| - 1]);
      doc := AppendAnyLine(d, lines[|lines| - 1]);
    }
  }

  lemma AppendAnyLine(d: seq<DocObject>, line: string) returns (doc: seq<DocObject>)
    requires WellFormed(d) && OneLine(line)
    ensures WellFormed(doc) && DocLines(doc) == DocLines(d) + [line]
  {
    if line == "" && d != [] {
      hide WellFormed, DocLines;
      var before, o := d[..|d| - 1], d[|d| - 1];
      InitAndLast(d);
      BlankAdded(before, o);
      doc := before + [o.(gap := o.gap + 1)];
    } else {
      doc := AppendLine(d, line);
    }
  }

  lemma AppendLine(d: seq<DocObject>, line: string) returns (doc: seq<DocObject>)
    requires WellFormed(d) && OneLine(line) && (line == "" ==> d == [])
    ensures WellFormed(doc) && DocLines(doc) == DocLines(d) + [line]
  {
    hide WellFormedObject, Body;
    if line == "" {
      EmptyIsWellFormed();
      DocOneMore([], DocObject([], [], 0));
      var o := DocObject([], [], 0);
      BlankAdded([], o);
      NothingInIt();
      doc := [] + [o.(gap := 1)];
    } else {
      hide WellFormed, DocLines, Blanks;
      var init, o := OpenObject(d);
      LastIsWellFormed(init, o);
      var more := LineAdded(o, line);
      doc := init + [more];
      LastReplaced(init, o, more);
      DocOneMore(init, more);
      NoBlanks();
      assert DocLines(init) + (Body(o) + [line]) + [] == DocLines(init) + Body(o) + [line];
    }
  }

  lemma NoBlanks()
    ensures Blanks(0) == []
  {
  }

  lemma LastIsWellFormed(init: seq<DocObject>, o: DocObject)
    requires WellFormed(init + [o])
    ensures WellFormedObject(o)
  {
    hide WellFormedObject;
    assert (init + [o])[|init|] == o;
  }

  lemma LastReplaced(init: seq<DocObject>, o: DocObject, more: DocObject)
    requires WellFormed(init + [o]) && WellFormedObject(more)
    ensures WellFormed(init + [more])
  {
    hide WellFormedObject;
    var before, after := init + [o], init + [more];
    assert forall i :: 0 <= i < |init| ==> after[i] == before[i];
  }

  lemma NothingInIt()
    ensures DocLines([] + [DocObject([], [], 0)]) == [] && DocLines([]) == []
  {
    assert [] + [DocObject([], [], 0)] == [DocObject([], [], 0)];
    assert [DocObject([], [], 0)][..0] == [];
  }

  // ---------------------------------------------------------------- what the parser does with any file

  /**
   * The parser told without its code: any file is a document in the grammar, and the objects are
   * the parts of the document that have attributes, with their keys in order of first occurrence and
   * the unfolded values of every key in line order.
   */
  lemma EveryFileParsesAsItReads(raw: seq<string>) returns (doc: seq<DocObject>)
    requires forall i :: 0 <= i < |raw| ==> OneLine(StripEol(raw[i]))
    ensures WellFormed(doc) && DocLines(doc) == Stripped(raw)
    ensures PrintsAll(doc, Parse(Stripped(raw)))
  {
    doc := EveryFileIsADocument(Stripped(raw));
    LinesReadBack(doc);
    MeaningPrints(doc);
  }

  lemma {:induction false} MeaningPrints(doc: seq<DocObject>)
    ensures PrintsAll(doc, Meaning(doc))
  {
    if doc != [] {
      hide Prints, ObjectMeaning, PairwisePrints;
      var init, last := doc[..|doc| - 1], doc[|doc| - 1];
      MeaningPrints(init);
      if last.attrs == [] {
        assert Meaning(init) + [] == Meaning(init);
      } else {
        ObjectPrints(last.attrs);
        OneMorePrints(Objects(init), Meaning(init), last, ObjectMeaning(last.attrs));
      }
    }
  }

  lemma OneMorePrints(parts: seq<DocObject>, objs: seq<RpslObject>, part: DocObject, obj: RpslObject)
    requires PairwisePrints(parts, objs) && Prints(part.attrs, obj)
    ensures PairwisePrints(parts + [part], objs + [obj])
  {
    hide Prints;
  }

  lemma ObjectPrints(attrs: seq<AttrLine>)
    ensures Prints(attrs, ObjectMeaning(attrs))
  {
    MeaningIsFirstOccurrences(attrs);
    FirstOccurrencesDiffer(attrs);
    var obj := ObjectMeaning(attrs);
    hide ObjectMeaning, FirstOccurrences, LineValues, Values;
    assert forall i :: 0 <= i < |obj| ==> KeysOf(obj)[i] == obj[i].key;
  }

  predicate AllDiffer(keys: seq<string>) {
    forall i, j :: 0 <= i < j < |keys| ==> keys[i] != keys[j]
  }

  lemma NewOneDiffers(keys: seq<string>, key: string)
    requires AllDiffer(keys) && key !in keys
    ensures AllDiffer(keys + [key])
  {
    assert forall i :: 0 <= i < |keys| ==> keys[i] in keys;
  }

  lemma {:induction false} FirstOccurrencesDiffer(attrs: seq<AttrLine>)
    ensures AllDiffer(FirstOccurrences(attrs))
  {
    if attrs != [] {
      hide Lower, AllDiffer;
      var init, key := FirstOccurrences(attrs[..|attrs| - 1]), Lower(attrs[|attrs| - 1].key);
      FirstOccurrencesDiffer(attrs[..|attrs| - 1]);
      if key !in init {
        NewOneDiffers(init, key);
      }
    }
  }
}
