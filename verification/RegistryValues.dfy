/** What the section parser collects besides the body: the header comments and the
    metadata values, each told from the lines alone. */
module RegistryValues {
  import opened Options
  import opened RegistryMeta
  import opened SectionFiles

  /** Line `i` is the last header comment with this key. */
  ghost predicate LastComment(lines: seq<string>, key: string, i: nat)
    requires i < |lines|
  {
    && InHeaderPart(lines, i) && Meta(lines[i]).value.0 == key
    && forall j :: i < j < |lines| && InHeaderPart(lines, j) ==> Meta(lines[j]).value.0 != key
  }

  /** The comments are the last values of their keys in the header. */
  ghost predicate CommentsFit(lines: seq<string>, comments: map<string, string>) {
    && (forall i :: 0 <= i < |lines| && InHeaderPart(lines, i) ==> Meta(lines[i]).value.0 in comments)
    && (forall key :: key in comments ==> CommentFits(lines, key, comments[key]))
  }

  ghost predicate CommentFits(lines: seq<string>, key: string, value: string) {
    exists i :: 0 <= i < |lines| && LastComment(lines, key, i) && value == Meta(lines[i]).value.1
  }

  /** Line `b` is the last bullet with this key. */
  ghost predicate LastBullet(lines: seq<string>, key: string, b: nat)
    requires b < |lines|
  {
    && BulletOf(lines[b]).Some? && BulletOf(lines[b]).value.0 == key
    && forall j :: b < j < |lines| && BulletOf(lines[j]).Some? ==> BulletOf(lines[j]).value.0 != key
  }

  /** The lines of the block that bullet `b` opens end before `end`. */
  ghost predicate BlockEnds(lines: seq<string>, b: nat, end: nat) {
    && b < end <= |lines|
    && (forall j :: b < j < end ==> Continues(lines[j]))
    && (end < |lines| ==> !Continues(lines[end]))
  }

  /** The value of key `key` is the last bullet with it and its indented lines. */
  ghost predicate ValueFits(lines: seq<string>, key: string, value: string) {
    exists b: nat, end: nat :: b < |lines| && LastBullet(lines, key, b) && BlockEnds(lines, b, end)
                               && value == JoinLines([RightTrim(BulletOf(lines[b]).value.1)] + lines[b + 1..end])
  }

  ghost predicate ValuesFit(lines: seq<string>, values: map<string, string>) {
    && (forall i :: 0 <= i < |lines| && BulletOf(lines[i]).Some? ==> BulletOf(lines[i]).value.0 in values)
    && (forall key :: key in values ==> ValueFits(lines, key, values[key]))
  }

  // ----- both readers of a section agree on its comments

  lemma {:induction false} CommentsStay(s: State, lines: seq<string>)
    requires !s.mode.InHeader?
    ensures ParseFrom(s, lines).comments == s.comments
    decreases |lines|
  {
    hide Meta, BulletOf, Continues, RightTrim;
    if lines != [] { CommentsStay(Step(s, lines[0]), lines[1..]); }
  }

  lemma {:induction false} HeaderIsParsed(s: State, lines: seq<string>)
    requires s.mode.InHeader?
    ensures ParseFrom(s, lines).comments == Header(lines, s.comments).0
    decreases |lines|
  {
    hide Meta, BulletOf, Continues, RightTrim;
    if lines != [] {
      var t := Step(s, lines[0]);
      if t.mode.InHeader? { HeaderIsParsed(t, lines[1..]); } else { CommentsStay(t, lines[1..]); }
    }
  }

  /** What the index builder reads from a section: the last value of each key in the
      header, the same comments the bootstrap reads. */
  lemma ReadersAgree(lines: seq<string>)
    ensures Header(lines, map[]).0 == Parsed(lines).comments
    ensures CommentsFit(lines, Header(lines, map[]).0)
  {
    hide Meta, Header, ParseFrom, CommentsFit;
    HeaderIsParsed(START, lines);
    CommentsAndValues(lines);
  }

  // ----- kept line by line

  /** The block that is open behind the last line is that of bullet `b` with this key. */
  ghost predicate Open(lines: seq<string>, b: nat, key: string) {
    && b < |lines| && BulletOf(lines[b]).Some? && BulletOf(lines[b]).value.0 == key
    && forall j :: b < j < |lines| ==> Continues(lines[j])
  }

  ghost predicate Fitting(lines: seq<string>, s: State) {
    && CommentsFit(lines, s.comments)
    && ValuesFit(lines, s.values)
    && (s.mode.InBullet? ==> exists b: nat :: Open(lines, b, s.mode.key))
  }

  lemma HeaderStays(lines: seq<string>, line: string, i: nat)
    requires i < |lines|
    ensures InHeaderPart(lines + [line], i) <==> InHeaderPart(lines, i)
  {
    hide Meta;
    assert forall j :: 0 <= j <= i ==> (lines + [line])[j] == lines[j];
    if InHeaderPart(lines + [line], i) {
      forall j | 0 <= j <= i ensures Meta(lines[j]).Some? { assert Meta((lines + [line])[j]).Some?; }
    }
  }

  lemma LastCommentStays(lines: seq<string>, line: string, key: string, i: nat)
    requires i < |lines| && LastComment(lines, key, i)
    requires InHeaderPart(lines + [line], |lines|) ==> Meta(line).Some? && Meta(line).value.0 != key
    ensures LastComment(lines + [line], key, i)
  {
    hide Meta, InHeaderPart;
    var more := lines + [line];
    HeaderStays(lines, line, i);
    forall j | i < j < |more| && InHeaderPart(more, j) ensures Meta(more[j]).Some? && Meta(more[j]).value.0 != key {
      if j < |lines| { HeaderStays(lines, line, j); }
      HeaderIsMeta(more, j);
    }
  }

  lemma HeaderIsMeta(lines: seq<string>, i: nat)
    requires i < |lines| && InHeaderPart(lines, i)
    ensures Meta(lines[i]).Some?
  {}

  lemma CommentsStep(lines: seq<string>, comments: map<string, string>, line: string)
    requires CommentsFit(lines, comments)
    ensures var more := lines + [line];
            CommentsFit(more, if InHeaderPart(more, |lines|) && Meta(line).Some?
                              then comments[Meta(line).value.0 := Meta(line).value.1] else comments)
  {
    var more, n := lines + [line], |lines|;
    assert more[n] == line;
    if InHeaderPart(more, n) { HeaderIsMeta(more, n); }
    hide Meta, InHeaderPart;
    var header := InHeaderPart(more, n) && Meta(line).Some?;
    var after := if header then comments[Meta(line).value.0 := Meta(line).value.1] else comments;
    forall i | 0 <= i < |more| && InHeaderPart(more, i) ensures Meta(more[i]).Some? && Meta(more[i]).value.0 in after {
      HeaderIsMeta(more, i);
      if i < n { HeaderStays(lines, line, i); }
    }
    forall key | key in after ensures CommentFits(more, key, after[key]) {
      if header && key == Meta(line).value.0 {
        assert LastComment(more, key, n);
      } else {
        CommentStays(lines, line, key, comments[key]);
      }
    }
  }

  lemma CommentStays(lines: seq<string>, line: string, key: string, value: string)
    requires CommentFits(lines, key, value)
    requires InHeaderPart(lines + [line], |lines|) ==> Meta(line).Some? && Meta(line).value.0 != key
    ensures CommentFits(lines + [line], key, value)
  {
    var i :| 0 <= i < |lines| && LastComment(lines, key, i) && value == Meta(lines[i]).value.1;
    LastCommentStays(lines, line, key, i);
    assert (lines + [line])[i] == lines[i];
  }

  lemma JoinSnoc(ls: seq<string>, l: string)
    requires ls != []
    ensures JoinLines(ls + [l]) == JoinLines(ls) + "\n" + l
  {
    JoinConcat(ls, [l]);
    JoinOne(l);
  }

  lemma LastBulletStays(lines: seq<string>, line: string, key: string, b: nat)
    requires b < |lines| && LastBullet(lines, key, b)
    requires BulletOf(line).Some? ==> BulletOf(line).value.0 != key
    ensures LastBullet(lines + [line], key, b)
  {
    hide BulletOf;
    var more := lines + [line];
    forall j | b < j < |more| && BulletOf(more[j]).Some? ensures BulletOf(more[j]).value.0 != key {
      if j < |lines| { assert more[j] == lines[j]; }
    }
  }

  /** A block that the next line does not join keeps its value. */
  lemma ValueStays(lines: seq<string>, line: string, key: string, value: string)
    requires ValueFits(lines, key, value)
    requires BulletOf(line).Some? ==> BulletOf(line).value.0 != key
    requires Continues(line) ==> forall b: nat :: !Open(lines, b, key)
    ensures ValueFits(lines + [line], key, value)
  {
    hide BulletOf, Continues, RightTrim, JoinLines;
    var more := lines + [line];
    var b: nat, end: nat :| b < |lines| && LastBullet(lines, key, b) && BlockEnds(lines, b, end)
      && value == JoinLines([RightTrim(BulletOf(lines[b]).value.1)] + lines[b + 1..end]);
    LastBulletStays(lines, line, key, b);
    assert more[b + 1..end] == lines[b + 1..end] && more[b] == lines[b];
    if end == |lines| { assert Open(lines, b, key); }
    assert BlockEnds(more, b, end);
  }

  /** The open block takes an indented line in. */
  lemma ValueGrows(lines: seq<string>, line: string, key: string, value: string, b: nat)
    requires ValueFits(lines, key, value) && Open(lines, b, key) && Continues(line)
    ensures ValueFits(lines + [line], key, value + "\n" + line)
  {
    var more, n := lines + [line], |lines|;
    var c: nat, end: nat :| c < n && LastBullet(lines, key, c) && BlockEnds(lines, c, end)
      && value == JoinLines([RightTrim(BulletOf(lines[c]).value.1)] + lines[c + 1..end]);
    OpenIsLast(lines, b, key, c);
    Disjoint(line);
    hide BulletOf, Continues, RightTrim, JoinLines;
    assert end == n;
    LastBulletStays(lines, line, key, c);
    assert more[c + 1..n + 1] == lines[c + 1..n] + [line] && more[c] == lines[c];
    assert BlockEnds(more, c, n + 1);
    var first := [RightTrim(BulletOf(lines[c]).value.1)];
    assert first + (lines[c + 1..n] + [line]) == first + lines[c + 1..n] + [line];
    JoinSnoc(first + lines[c + 1..n], line);
  }

  lemma OpenIsLast(lines: seq<string>, b: nat, key: string, c: nat)
    requires Open(lines, b, key) && c < |lines| && LastBullet(lines, key, c)
    ensures b == c
  {
    if b < c {
      Disjoint(lines[c]);
    }
  }

  lemma OneOpen(lines: seq<string>, b: nat, key: string, c: nat, other: string)
    requires Open(lines, b, key) && Open(lines, c, other)
    ensures key == other
  {
    if b < c { Disjoint(lines[c]); }
    if c < b { Disjoint(lines[b]); }
  }

  lemma BulletFits(lines: seq<string>, line: string)
    requires BulletOf(line).Some?
    ensures ValueFits(lines + [line], BulletOf(line).value.0, RightTrim(BulletOf(line).value.1))
    ensures Open(lines + [line], |lines|, BulletOf(line).value.0)
  {
    hide BulletOf, RightTrim;
    var more, n := lines + [line], |lines|;
    var key := BulletOf(line).value.0;
    assert more[n] == line;
    assert LastBullet(more, key, n);
    assert BlockEnds(more, n, n + 1);
    assert more[n + 1..n + 1] == [];
    var first := RightTrim(BulletOf(line).value.1);
    assert [first] + [] == [first];
    JoinOne(first);
  }

  /** The bullets of the lines so far all have a value. */
  lemma KeysStep(lines: seq<string>, values: map<string, string>, after: map<string, string>, line: string)
    requires forall i :: 0 <= i < |lines| && BulletOf(lines[i]).Some? ==> BulletOf(lines[i]).value.0 in values
    requires forall k :: k in values ==> k in after
    requires BulletOf(line).Some? ==> BulletOf(line).value.0 in after
    ensures var more := lines + [line];
            forall i :: 0 <= i < |more| && BulletOf(more[i]).Some? ==> BulletOf(more[i]).value.0 in after
  {
    hide BulletOf;
    var more := lines + [line];
    forall i | 0 <= i < |more| && BulletOf(more[i]).Some? ensures BulletOf(more[i]).value.0 in after {
      if i < |lines| { assert more[i] == lines[i]; }
    }
  }

  lemma BulletStep(lines: seq<string>, s: State, line: string)
    requires Fitting(lines, s) && BulletOf(line).Some?
    ensures var (key, value) := BulletOf(line).value; ValuesFit(lines + [line], s.values[key := RightTrim(value)])
  {
    Disjoint(line);
    BulletFits(lines, line);
    hide BulletOf, Continues, RightTrim, ValueFits, Open;
    var (key, value) := BulletOf(line).value;
    var after := s.values[key := RightTrim(value)];
    KeysStep(lines, s.values, after, line);
    forall k | k in after ensures ValueFits(lines + [line], k, after[k]) {
      if k != key { ValueStays(lines, line, k, s.values[k]); }
    }
  }

  lemma ContinueStep(lines: seq<string>, values: map<string, string>, key: string, b: nat, line: string)
    requires ValuesFit(lines, values) && key in values && Open(lines, b, key)
    requires Continues(line) && BulletOf(line).None?
    ensures ValuesFit(lines + [line], values[key := values[key] + "\n" + line])
  {
    hide BulletOf, Continues, ValueFits, Open;
    ValueGrows(lines, line, key, values[key], b);
    var after := values[key := values[key] + "\n" + line];
    KeysStep(lines, values, after, line);
    forall k | k in after ensures ValueFits(lines + [line], k, after[k]) {
      if k != key { ClosedStays(lines, line, k, values[k], b, key); }
    }
  }

  /** While a block is open under one key, the values of the others stay. */
  lemma ClosedStays(lines: seq<string>, line: string, k: string, value: string, b: nat, key: string)
    requires ValueFits(lines, k, value) && Open(lines, b, key) && k != key && BulletOf(line).None?
    ensures ValueFits(lines + [line], k, value)
  {
    hide BulletOf, Continues, ValueFits, Open;
    forall c: nat ensures !Open(lines, c, k) {
      if Open(lines, c, k) { OneOpen(lines, b, key, c, k); }
    }
    ValueStays(lines, line, k, value);
  }

  lemma OpenStays(lines: seq<string>, line: string, b: nat, key: string)
    requires Open(lines, b, key) && Continues(line)
    ensures Open(lines + [line], b, key)
  {
    hide BulletOf, Continues;
    var more := lines + [line];
    forall j | b < j < |more| ensures Continues(more[j]) {
      if j < |lines| { assert more[j] == lines[j]; }
    }
  }

  lemma OpenTakesIn(lines: seq<string>, line: string, b: nat, key: string)
    requires Open(lines, b, key) && Continues(line)
    ensures InBlock(lines + [line], |lines|)
  {
    hide BulletOf, Continues;
    OpenStays(lines, line, b, key);
    assert RunsTo(lines + [line], b, |lines|);
  }

  /** A line that is neither bullet nor part of a block leaves the values alone. */
  lemma OtherStep(lines: seq<string>, s: State, line: string)
    requires Fitting(lines, s) && BulletOf(line).None?
    requires Continues(line) ==> !InBlock(lines + [line], |lines|)
    ensures ValuesFit(lines + [line], s.values)
  {
    hide BulletOf, Continues, ValueFits;
    KeysStep(lines, s.values, s.values, line);
    forall k | k in s.values ensures ValueFits(lines + [line], k, s.values[k]) {
      if Continues(line) {
        forall b: nat ensures !Open(lines, b, k) {
          if Open(lines, b, k) { OpenTakesIn(lines, line, b, k); }
        }
      }
      ValueStays(lines, line, k, s.values[k]);
    }
  }

  lemma StepFits(lines: seq<string>, s: State, line: string)
    requires Sorted(lines, s) && Fitting(lines, s)
    ensures Fitting(lines + [line], Step(s, line))
  {
    var more, n, t := lines + [line], |lines|, Step(s, line);
    NextKind(lines, s, line);
    CommentsStep(lines, s.comments, line);
    Disjoint(line);
    assert more[n] == line;
    if InHeaderPart(more, n) { HeaderIsMeta(more, n); }
    assert t.kinds[n] == KindOf(more, n);
    hide Meta, BulletOf, Continues, InHeaderPart, InBlock, CommentsFit, ValuesFit, Open, RightTrim;
    if t.kinds[n] == BulletLine {
      BulletStep(lines, s, line);
      BulletFits(lines, line);
    } else if t.kinds[n] == ContinuationLine {
      var b: nat :| Open(lines, b, s.mode.key);
      ContinueStep(lines, s.values, s.mode.key, b, line);
      OpenStays(lines, line, b, s.mode.key);
    } else {
      OtherStep(lines, s, line);
    }
  }

  lemma {:induction false} ParseFits(done: seq<string>, s: State, rest: seq<string>)
    requires Sorted(done, s) && Fitting(done, s)
    ensures Fitting(done + rest, ParseFrom(s, rest))
    decreases |rest|
  {
    hide Sorted, Fitting, Step;
    if rest == [] {
      assert done + rest == done;
    } else {
      StepSorts(done, s, rest[0]);
      StepFits(done, s, rest[0]);
      ParseFits(done + [rest[0]], Step(s, rest[0]), rest[1..]);
      assert done + [rest[0]] + rest[1..] == done + rest;
    }
  }

  /** The comments are the last value of each key in the header; each metadata value
      is the last bullet of its key with the indented lines behind it. */
  lemma CommentsAndValues(lines: seq<string>)
    ensures CommentsFit(lines, Parsed(lines).comments)
    ensures ValuesFit(lines, Parsed(lines).values)
  {
    ParseFits([], START, lines);
    assert [] + lines == lines;
  }

  lemma OneLastComment(lines: seq<string>, key: string, i: nat, j: nat)
    requires i < |lines| && j < |lines| && LastComment(lines, key, i) && LastComment(lines, key, j)
    ensures i == j
  {
    hide Meta;
  }

  lemma OneLastBullet(lines: seq<string>, key: string, b: nat, c: nat)
    requires b < |lines| && c < |lines| && LastBullet(lines, key, b) && LastBullet(lines, key, c)
    ensures b == c
  {
    hide BulletOf;
  }

  lemma OneEnd(lines: seq<string>, b: nat, end: nat, other: nat)
    requires BlockEnds(lines, b, end) && BlockEnds(lines, b, other)
    ensures end == other
  {
    hide Continues;
  }

  /** A value is read for a key exactly when it is what the lines say. */
  lemma CommentIs(lines: seq<string>, key: string, value: string)
    ensures CommentFits(lines, key, value)
       <==> key in Parsed(lines).comments && Parsed(lines).comments[key] == value
  {
    CommentsAndValues(lines);
    hide Parsed, Meta;
    var comments := Parsed(lines).comments;
    if CommentFits(lines, key, value) {
      var i :| 0 <= i < |lines| && LastComment(lines, key, i) && value == Meta(lines[i]).value.1;
      assert Meta(lines[i]).value.0 in comments;
      assert CommentFits(lines, key, comments[key]);
      var j :| 0 <= j < |lines| && LastComment(lines, key, j) && comments[key] == Meta(lines[j]).value.1;
      OneLastComment(lines, key, i, j);
    }
  }

  lemma ValueIs(lines: seq<string>, key: string, value: string)
    ensures ValueFits(lines, key, value) <==> key in Parsed(lines).values && Parsed(lines).values[key] == value
  {
    CommentsAndValues(lines);
    hide Parsed, BulletOf, ValueFits;
    var values := Parsed(lines).values;
    if ValueFits(lines, key, value) {
      ValueHasLast(lines, key, value);
      OneValue(lines, key, value, values[key]);
    }
  }

  lemma ValueHasLast(lines: seq<string>, key: string, value: string)
    requires ValueFits(lines, key, value)
    ensures exists b :: 0 <= b < |lines| && BulletOf(lines[b]).Some? && BulletOf(lines[b]).value.0 == key
  {
    hide BulletOf, Continues, JoinLines, RightTrim;
    var b: nat, end: nat :| b < |lines| && LastBullet(lines, key, b) && BlockEnds(lines, b, end);
  }

  lemma OneValue(lines: seq<string>, key: string, v: string, w: string)
    requires ValueFits(lines, key, v) && ValueFits(lines, key, w)
    ensures v == w
  {
    hide BulletOf, Continues, JoinLines, RightTrim;
    var b: nat, end: nat :| b < |lines| && LastBullet(lines, key, b) && BlockEnds(lines, b, end)
      && v == JoinLines([RightTrim(BulletOf(lines[b]).value.1)] + lines[b + 1..end]);
    var c: nat, other: nat :| c < |lines| && LastBullet(lines, key, c) && BlockEnds(lines, c, other)
      && w == JoinLines([RightTrim(BulletOf(lines[c]).value.1)] + lines[c + 1..other]);
    OneLastBullet(lines, key, b, c);
    OneEnd(lines, b, end, other);
  }
}
