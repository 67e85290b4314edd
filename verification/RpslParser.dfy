/**
 * The RPSL line parser (section 2 of RFC 2622): attributes, continuations, comments, objects
 * separated by blank lines, and an object at the end without one.
 */
module RpslParser {
  import opened Prelude
  import opened PyText

  /** A dictionary entry. Entries keep insertion order; the first key is the object's type. */
  datatype Attr = Attr(key: string, values: seq<string>)

  type RpslObject = seq<Attr>

  predicate HasKey(obj: RpslObject, key: string) {
    exists i :: 0 <= i < |obj| && obj[i].key == key
  }

  /** `obj.setdefault(key, []).append(value)` */
  function Add(obj: RpslObject, key: string, value: string): RpslObject {
    if obj == [] then [Attr(key, [value])]
    else if obj[0].key == key then [Attr(key, obj[0].values + [value])] + obj[1..]
    else [obj[0]] + Add(obj[1..], key, value)
  }

  /** `obj.get(key) or []` */
  function Values(obj: RpslObject, key: string): seq<string> {
    if obj == [] then [] else if obj[0].key == key then obj[0].values else Values(obj[1..], key)
  }

  /** `values[-1] += " " + text` */
  function Glued(values: seq<string>, text: string): seq<string> {
    if values == [] then [] else values[..|values| - 1] + [values[|values| - 1] + " " + text]
  }

  /** `obj[key][-1] += " " + text` */
  function Extend(obj: RpslObject, key: string, text: string): RpslObject {
    if obj == [] then []
    else if obj[0].key == key then [Attr(key, Glued(obj[0].values, text))] + obj[1..]
    else [obj[0]] + Extend(obj[1..], key, text)
  }

  // ---------------------------------------------------------------- one line

  datatype Line = Blank | Comment | Continuation(text: string) | Malformed | Attribute(key: string, value: string)

  predicate ContinuationChar(c: char) {
    c == ' ' || c == '\t' || c == '+'
  }

  function Classify(line: string): Line {
    if line == "" then Blank
    else if line[0] == '%' || line[0] == '#' then Comment
    else if ContinuationChar(line[0]) then Continuation(LStrip(if line[0] == '+' then line[1..] else line))
    else
      var colon := IndexOf(line, ':');
      if colon == |line| then Malformed
      else Attribute(Lower(Strip(line[..colon])), LStrip(line[colon + 1..]))
  }

  // ---------------------------------------------------------------- the specification

  /** The object under construction and the key that continuation lines extend. */
  datatype Open = Open(obj: RpslObject, key: Option<string>)

  const NOTHING := Open([], None)

  function Take(o: Open, line: string): Open {
    match Classify(line)
    case Attribute(key, value) => Open(Add(o.obj, key, value), Some(key))
    case Continuation(text) =>
      if o.key.None? || text == "" then o else Open(Extend(o.obj, o.key.value, text), o.key)
    case _ => o
  }

  function TakeAll(o: Open, lines: seq<string>): Open {
    if lines == [] then o else Take(TakeAll(o, lines[..|lines| - 1]), lines[|lines| - 1])
  }

  /** The lines between blank lines. */
  function Paragraphs(lines: seq<string>): (ps: seq<seq<string>>)
    ensures |ps| >= 1
  {
    if lines == [] then [[]]
    else
      var ps, last := Paragraphs(lines[..|lines| - 1]), lines[|lines| - 1];
      if last == "" then ps + [[]] else ps[..|ps| - 1] + [ps[|ps| - 1] + [last]]
  }

  function Yielded(paragraph: seq<string>): seq<RpslObject> {
    var obj := TakeAll(NOTHING, paragraph).obj;
    if obj == [] then [] else [obj]
  }

  function YieldAll(ps: seq<seq<string>>): seq<RpslObject> {
    if ps == [] then [] else YieldAll(ps[..|ps| - 1]) + Yielded(ps[|ps| - 1])
  }

  /** Split at blank lines, fold each paragraph, keep the objects that have an attribute. */
  function Parse(lines: seq<string>): seq<RpslObject> {
    YieldAll(Paragraphs(lines))
  }

  // ---------------------------------------------------------------- the loop's invariant

  /** The object is non-empty, has a current key, and the key is one of its own, all together or not at all. */
  predicate Consistent(o: Open, hasAttrs: bool) {
    && (hasAttrs <==> o.obj != []) && (hasAttrs <==> o.key.Some?)
    && (o.key.Some? ==> HasKey(o.obj, o.key.value))
  }

  lemma {:induction false} AddHasKey(obj: RpslObject, key: string, value: string)
    ensures Add(obj, key, value) != [] && HasKey(Add(obj, key, value), key)
  {
    var after := Add(obj, key, value);
    if obj == [] || obj[0].key == key {
      assert after[0].key == key;
    } else {
      AddHasKey(obj[1..], key, value);
      var i :| 0 <= i < |after[1..]| && after[1..][i].key == key;
      assert after[i + 1].key == key;
    }
  }

  lemma {:induction false} ExtendKeepsKeys(obj: RpslObject, key: string, text: string)
    ensures |Extend(obj, key, text)| == |obj|
    ensures forall i :: 0 <= i < |obj| ==> Extend(obj, key, text)[i].key == obj[i].key
  {
    if obj != [] && obj[0].key != key {
      ExtendKeepsKeys(obj[1..], key, text);
      var after := Extend(obj, key, text);
      forall i | 0 <= i < |obj|
        ensures after[i].key == obj[i].key
      {
        if i > 0 {
          assert after[i] == after[1..][i - 1] && obj[i] == obj[1..][i - 1];
        }
      }
    }
  }

  lemma TakeKeepsConsistency(o: Open, hasAttrs: bool, line: string)
    requires Consistent(o, hasAttrs) && line != ""
    ensures Consistent(Take(o, line), hasAttrs || Classify(line).Attribute?)
  {
    match Classify(line)
    case Attribute(key, value) => AddHasKey(o.obj, key, value);
    case Continuation(text) =>
      if o.key.Some? {
        ExtendKeepsKeys(o.obj, o.key.value, text);
        var i :| 0 <= i < |o.obj| && o.obj[i].key == o.key.value;
        assert Extend(o.obj, o.key.value, text)[i].key == o.key.value;
      }
    case _ =>
  }

  // ---------------------------------------------------------------- the loop

  datatype Tally = Tally(objectsYielded: nat, linesTotal: nat, bytesConsumed: nat) {
    /** Counts added up. */
    function Plus(objects: nat, lines: nat, bytes: nat): Tally {
      Tally(objectsYielded + objects, linesTotal + lines, bytesConsumed + bytes)
    }
  }

  class RpslParseStats {
    var objectsYielded: nat
    var linesTotal: nat
    var bytesConsumed: nat

    constructor ()
      ensures Value() == Tally(0, 0, 0)
    {
      objectsYielded, linesTotal, bytesConsumed := 0, 0, 0;
    }

    function Value(): Tally
      reads this
    {
      Tally(objectsYielded, linesTotal, bytesConsumed)
    }

    method CountLine(rawLine: string)
      modifies this
      ensures Value() == old(Value()).Plus(0, 1, Utf8Length(rawLine))
    {
      linesTotal := linesTotal + 1;
      bytesConsumed := bytesConsumed + Utf8Length(rawLine);
    }

    method CountObject()
      modifies this
      ensures Value() == old(Value()).Plus(1, 0, 0)
    {
      objectsYielded := objectsYielded + 1;
    }
  }

  function Stripped(raw: seq<string>): (lines: seq<string>)
    ensures |lines| == |raw| && forall i :: 0 <= i < |raw| ==> lines[i] == StripEol(raw[i])
  {
    if raw == [] then [] else Stripped(raw[..|raw| - 1]) + [StripEol(raw[|raw| - 1])]
  }

  function ByteSize(raw: seq<string>): nat {
    if raw == [] then 0 else ByteSize(raw[..|raw| - 1]) + Utf8Length(raw[|raw| - 1])
  }

  lemma ParagraphsStep(lines: seq<string>, line: string)
    ensures var ps := Paragraphs(lines);
            Paragraphs(lines + [line]) == if line == "" then ps + [[]] else OnLast(ps, line)
  {
    assert (lines + [line])[..|lines|] == lines;
  }

  function OnLast(ps: seq<seq<string>>, line: string): seq<seq<string>>
    requires |ps| >= 1
  {
    ps[..|ps| - 1] + [ps[|ps| - 1] + [line]]
  }

  lemma OneMoreRawLine(raw: seq<string>, n: nat)
    requires n < |raw|
    ensures Stripped(raw[..n + 1]) == Stripped(raw[..n]) + [StripEol(raw[n])]
    ensures ByteSize(raw[..n + 1]) == ByteSize(raw[..n]) + Utf8Length(raw[n])
  {
    assert raw[..n + 1][..n] == raw[..n];
  }

  function Finished(o: Open): seq<RpslObject> {
    if o.obj == [] then [] else [o.obj]
  }

  /** How far a prefix of the file determines the result: finished objects, and the open one. */
  datatype Progress = Progress(done: seq<RpslObject>, open: Open)

  function ProgressOf(lines: seq<string>): Progress {
    var ps := Paragraphs(lines);
    Progress(YieldAll(ps[..|ps| - 1]), TakeAll(NOTHING, ps[|ps| - 1]))
  }

  lemma ParseIsProgressFinished(lines: seq<string>)
    ensures Parse(lines) == ProgressOf(lines).done + Finished(ProgressOf(lines).open)
  {
  }

  lemma ProgressOneMore(lines: seq<string>, line: string)
    ensures var p := ProgressOf(lines);
            ProgressOf(lines + [line]) == if line == "" then Progress(p.done + Finished(p.open), NOTHING)
                                          else Progress(p.done, Take(p.open, line))
  {
    ParagraphsStep(lines, line);
    hide Paragraphs, Take;
    var ps := Paragraphs(lines);
    if line != "" {
      assert (ps[|ps| - 1] + [line])[..|ps[|ps| - 1]|] == ps[|ps| - 1];
    }
  }

  /** The loop body for a line that is not empty: comment, continuation or `key: value`. */
  method TakeLine(obj: RpslObject, key: Option<string>, has: bool, line: string)
    returns (currentObj: RpslObject, currentKey: Option<string>, hasAttrs: bool)
    requires line != "" && Consistent(Open(obj, key), has)
    ensures Open(currentObj, currentKey) == Take(Open(obj, key), line)
    ensures Consistent(Open(currentObj, currentKey), hasAttrs)
  {
    currentObj, currentKey, hasAttrs := obj, key, has;
    TakeKeepsConsistency(Open(obj, key), has, line);
    if line[0] == '%' || line[0] == '#' {
      return;
    }
    if ContinuationChar(line[0]) {
      if currentKey.None? {
        return;
      }
      var cont := if line[0] == '+' then LStrip(line[1..]) else LStrip(line);
      if cont != "" {
        currentObj := Extend(currentObj, currentKey.value, cont);
      }
      return;
    }
    var colon := IndexOf(line, ':');
    if colon == |line| {
      return;
    }
    var attrKey, value := Lower(Strip(line[..colon])), LStrip(line[colon + 1..]);
    currentObj := Add(currentObj, attrKey, value);
    currentKey := Some(attrKey);
    hasAttrs := true;
  }

  /** `yield current_obj`, counted. */
  method Yield(yielded: seq<RpslObject>, obj: RpslObject, stats: RpslParseStats?) returns (objects: seq<RpslObject>)
    modifies stats
    ensures objects == yielded + [obj]
    ensures stats != null ==> stats.Value() == old(stats.Value()).Plus(1, 0, 0)
  {
    objects := yielded + [obj];
    if stats != null {
      stats.CountObject();
    }
  }

  /** The loop body. Its defensive branch is dead. */
  method TakeRawLine(
    rawLine: string, yielded: seq<RpslObject>, obj: RpslObject, key: Option<string>, has: bool, stats: RpslParseStats?)
    returns (objects: seq<RpslObject>, currentObj: RpslObject, currentKey: Option<string>, hasAttrs: bool)
    requires Consistent(Open(obj, key), has)
    modifies stats
    ensures Progress(objects, Open(currentObj, currentKey))
         == if StripEol(rawLine) == "" then Progress(yielded + Finished(Open(obj, key)), NOTHING)
            else Progress(yielded, Take(Open(obj, key), StripEol(rawLine)))
    ensures Consistent(Open(currentObj, currentKey), hasAttrs)
    ensures |yielded| <= |objects|
    ensures stats != null ==> stats.Value() == old(stats.Value()).Plus(|objects| - |yielded|, 1, Utf8Length(rawLine))
  {
    objects := yielded;
    if stats != null {
      stats.CountLine(rawLine);
    }
    var line := StripEol(rawLine);
    if line == "" {
      if has {
        objects := Yield(objects, obj, stats);
      } else if obj != [] || key.Some? {
        assert false;
      }
      currentObj, currentKey, hasAttrs := [], None, false;
    } else {
      currentObj, currentKey, hasAttrs := TakeLine(obj, key, has, line);
    }
  }

  /** The object at the end of a file without a trailing blank line. */
  method YieldTail(yielded: seq<RpslObject>, obj: RpslObject, key: Option<string>, has: bool, stats: RpslParseStats?)
    returns (objects: seq<RpslObject>)
    requires Consistent(Open(obj, key), has)
    modifies stats
    ensures objects == yielded + Finished(Open(obj, key))
    ensures stats != null ==> stats.Value() == old(stats.Value()).Plus(|objects| - |yielded|, 0, 0)
  {
    objects := yielded;
    if has {
      objects := Yield(objects, obj, stats);
    }
  }

  lemma NothingRead(raw: seq<string>)
    ensures ProgressOf(Stripped(raw[..0])) == Progress([], NOTHING) && ByteSize(raw[..0]) == 0
    ensures Consistent(NOTHING, false)
  {
  }

  method ParseRpslInternal(raw: seq<string>, stats: RpslParseStats?) returns (objects: seq<RpslObject>)
    modifies stats
    ensures objects == Parse(Stripped(raw))
    ensures stats != null ==> stats.Value() == old(stats.Value()).Plus(|objects|, |raw|, ByteSize(raw))
  {
    objects := [];
    var currentObj: RpslObject, currentKey: Option<string>, hasAttrs := [], None, false;
    NothingRead(raw);
    hide Stripped, ByteSize, ProgressOf, Consistent, Take, Finished, Parse, StripEol, Utf8Length;
    for n := 0 to |raw|
      invariant ProgressOf(Stripped(raw[..n])) == Progress(objects, Open(currentObj, currentKey))
      invariant Consistent(Open(currentObj, currentKey), hasAttrs)
      invariant stats != null ==> stats.Value() == old(stats.Value()).Plus(|objects|, n, ByteSize(raw[..n]))
    {
      OneMoreRawLine(raw, n);
      ProgressOneMore(Stripped(raw[..n]), StripEol(raw[n]));
      objects, currentObj, currentKey, hasAttrs := TakeRawLine(raw[n], objects, currentObj, currentKey, hasAttrs, stats);
    }
    assert raw[..|raw|] == raw;
    ParseIsProgressFinished(Stripped(raw));
    objects := YieldTail(objects, currentObj, currentKey, hasAttrs, stats);
  }

  // ---------------------------------------------------------------- laws

  lemma OnLastOfConcat(ps: seq<seq<string>>, qs: seq<seq<string>>, line: string)
    requires |qs| >= 1
    ensures OnLast(ps + qs, line) == ps + OnLast(qs, line)
  {
    assert (ps + qs)[..|ps + qs| - 1] == ps + qs[..|qs| - 1];
  }

  lemma {:induction false} ParagraphsSplit(xs: seq<string>, ys: seq<string>)
    ensures Paragraphs(xs + [""] + ys) == Paragraphs(xs) + Paragraphs(ys)
  {
    if ys == [] {
      assert xs + [""] + ys == xs + [""];
      ParagraphsStep(xs, "");
    } else {
      ParagraphsSplit(xs, ys[..|ys| - 1]);
      ParagraphsSplitStep(xs, ys[..|ys| - 1], ys[|ys| - 1]);
      assert ys == ys[..|ys| - 1] + [ys[|ys| - 1]];
    }
  }

  lemma {:induction false} ParagraphsSplitStep(xs: seq<string>, ys: seq<string>, line: string)
    requires Paragraphs(xs + [""] + ys) == Paragraphs(xs) + Paragraphs(ys)
    ensures Paragraphs(xs + [""] + (ys + [line])) == Paragraphs(xs) + Paragraphs(ys + [line])
  {
    hide Paragraphs;
    assert xs + [""] + (ys + [line]) == (xs + [""] + ys) + [line];
    ParagraphsStep(xs + [""] + ys, line);
    ParagraphsStep(ys, line);
    var ps, qs := Paragraphs(xs), Paragraphs(ys);
    if line == "" {
      assert (ps + qs) + [[]] == ps + (qs + [[]]);
    } else {
      OnLastOfConcat(ps, qs, line);
    }
  }

  lemma {:induction false} YieldAllConcat(ps: seq<seq<string>>, qs: seq<seq<string>>)
    ensures YieldAll(ps + qs) == YieldAll(ps) + YieldAll(qs)
  {
    hide Yielded;
    if qs == [] {
      assert ps + qs == ps;
    } else {
      YieldAllConcat(ps, qs[..|qs| - 1]);
      assert (ps + qs)[..|ps + qs| - 1] == ps + qs[..|qs| - 1];
    }
  }

  /** A blank line cuts a file into two that parse independently. */
  lemma {:induction false} ParseSplitsAtBlank(xs: seq<string>, ys: seq<string>)
    ensures Parse(xs + [""] + ys) == Parse(xs) + Parse(ys)
  {
    ParagraphsSplit(xs, ys);
    YieldAllConcat(Paragraphs(xs), Paragraphs(ys));
  }

  lemma {:induction false} NoBlankIsOneParagraph(lines: seq<string>)
    requires "" !in lines
    ensures Paragraphs(lines) == [lines]
  {
    if lines != [] {
      var init, last := lines[..|lines| - 1], lines[|lines| - 1];
      assert last in lines && lines == init + [last];
      NoBlankIsOneParagraph(init);
      ParagraphsStep(init, last);
      hide Paragraphs;
      OnLastOfOne(init, last);
    }
  }

  lemma OnLastOfOne(p: seq<string>, line: string)
    ensures OnLast([p], line) == [p + [line]]
  {
    assert [p][..0] == [];
  }

  lemma ParseParagraph(lines: seq<string>)
    requires "" !in lines
    ensures Parse(lines) == Yielded(lines)
  {
    NoBlankIsOneParagraph(lines);
    assert [lines][..0] == [];
    assert YieldAll([lines]) == YieldAll([]) + Yielded(lines);
  }

  lemma {:induction false} TakeAllConcat(o: Open, xs: seq<string>, ys: seq<string>)
    ensures TakeAll(o, xs + ys) == TakeAll(TakeAll(o, xs), ys)
  {
    hide Take;
    if ys == [] {
      assert xs + ys == xs;
    } else {
      TakeAllConcat(o, xs, ys[..|ys| - 1]);
      assert (xs + ys)[..|xs + ys| - 1] == xs + ys[..|ys| - 1];
    }
  }
}
