/** The registry bootstrap: it takes the metadata bullets out of every section file
    and writes the file back as header comments and prose. */
module RegistryMeta {
  import opened Options
  import opened SectionFiles

  // ----- the lines of a section

  predicate BulletKey(key: string) {
    key == "Target" || key == "Severity" || key == "Category"
  }

  function Bullet(key: string): string {
    "- **" + key + ":** "
  }

  function BulletValue(line: string, key: string): Option<string> {
    if Bullet(key) <= line then Some(line[|Bullet(key)|..]) else None
  }

  /** A metadata bullet: its key and value. */
  function BulletOf(line: string): Option<(string, string)> {
    if BulletValue(line, "Target").Some? then Some(("Target", BulletValue(line, "Target").value))
    else if BulletValue(line, "Severity").Some? then Some(("Severity", BulletValue(line, "Severity").value))
    else if BulletValue(line, "Category").Some? then Some(("Category", BulletValue(line, "Category").value))
    else None
  }

  predicate IsSpace(c: char) {
    c in " \t\n\r" || 0x0b <= c as int <= 0x0c || 0x1c <= c as int <= 0x1f
  }

  function RightTrim(s: string): string {
    if s != "" && IsSpace(s[|s| - 1]) then RightTrim(s[..|s| - 1]) else s
  }

  /** An indented line that is not blank. */
  predicate Continues(line: string) {
    "  " <= line && exists i :: 0 <= i < |line| && !IsSpace(line[i])
  }

  /** What a bullet is: one of three keys in bold and any value. */
  lemma BulletMeaning(line: string, key: string, value: string)
    ensures BulletOf(line) == Some((key, value))
       <==> (key == "Target" || key == "Severity" || key == "Category") && line == "- **" + key + ":** " + value
  {
    if BulletKey(key) && line == Bullet(key) + value {
      BulletIsRead(key, value);
    }
  }

  /** ASCII white space by code point: tab to carriage return, the separators, the blank. */
  lemma SpaceCodes(c: char)
    ensures IsSpace(c) <==> c as int in {9, 10, 11, 12, 13, 28, 29, 30, 31, 32}
  {}

  /** `rstrip()` takes off white space at the end and nothing else. */
  lemma {:induction false} RightTrimMeaning(s: string)
    ensures RightTrim(s) <= s
    ensures forall i :: |RightTrim(s)| <= i < |s| ==> IsSpace(s[i])
    ensures RightTrim(s) != "" ==> !IsSpace(RightTrim(s)[|RightTrim(s)| - 1])
  {
    hide IsSpace;
    if s != "" && IsSpace(s[|s| - 1]) { RightTrimMeaning(s[..|s| - 1]); }
  }

  /** An indented line: two blanks and something to see behind them. */
  lemma ContinuesMeaning(line: string)
    ensures Continues(line)
       <==> |line| >= 2 && line[0] == ' ' && line[1] == ' '
            && exists i :: 2 <= i < |line| && !IsSpace(line[i])
  {}

  // ----- the parser as one step a line

  datatype Kind = HeaderLine | BulletLine | ContinuationLine | BodyLine
  datatype Mode = InHeader | InBullet(key: string) | InBody

  datatype State = State(mode: Mode, comments: map<string, string>, values: map<string, string>, body: seq<string>,
                         kinds: seq<Kind>)

  const START := State(InHeader, map[], map[], [], [])

  function Step(s: State, line: string): State {
    if s.mode.InHeader? && Meta(line).Some? then
      s.(comments := s.comments[Meta(line).value.0 := Meta(line).value.1], kinds := s.kinds + [HeaderLine])
    else if s.mode.InBullet? && Continues(line) && s.mode.key in s.values then
      s.(values := s.values[s.mode.key := s.values[s.mode.key] + "\n" + line], kinds := s.kinds + [ContinuationLine])
    else if BulletOf(line).Some? then
      var (key, value) := BulletOf(line).value;
      s.(mode := InBullet(key), values := s.values[key := RightTrim(value)], kinds := s.kinds + [BulletLine])
    else
      s.(mode := InBody, body := s.body + [line], kinds := s.kinds + [BodyLine])
  }

  function ParseFrom(s: State, lines: seq<string>): State
    decreases |lines|
  {
    if lines == [] then s else ParseFrom(Step(s, lines[0]), lines[1..])
  }

  function Parsed(lines: seq<string>): State {
    ParseFrom(START, lines)
  }

  lemma ParseStep(s: State, lines: seq<string>, i: nat)
    requires i < |lines|
    ensures ParseFrom(s, lines[i..]) == ParseFrom(Step(s, lines[i]), lines[i + 1..])
  {
    assert lines[i..][1..] == lines[i + 1..];
  }

  /** Header comments, metadata bullets with their continuation lines, and the rest. */
  method Parse(text: string) returns (comments: map<string, string>, values: map<string, string>, body: seq<string>)
    ensures var s := Parsed(Lines(text)); comments == s.comments && values == s.values && body == s.body
  {
    hide Meta, BulletOf, Continues, RightTrim, ParseFrom, Lines;
    comments, values, body := map[], map[], [];
    var inHeader := true;
    var lines := Lines(text);
    ghost var s := START;
    ghost var all := Parsed(lines);
    assert lines[0..] == lines;
    var i := 0;
    while i < |lines|
      invariant 0 <= i <= |lines|
      invariant ParseFrom(s, lines[i..]) == all
      invariant s.comments == comments && s.values == values && s.body == body
      invariant s.mode.InHeader? <==> inHeader
      invariant s.mode.InBullet? && s.mode.key in s.values && i < |lines| ==> !Continues(lines[i])
      decreases |lines| - i
    {
      var line := lines[i];
      ParseStep(s, lines, i);
      if inHeader {
        var found := Meta(line);
        if found.Some? {
          comments := comments[found.value.0 := found.value.1];
          s := Step(s, line);
          i := i + 1;
          continue;
        }
        inHeader := false;
      }
      var found := BulletOf(line);
      if found.Some? {
        var value := RightTrim(found.value.1);
        s := Step(s, line);
        i := i + 1;
        while i < |lines| && Continues(lines[i])
          invariant 0 <= i <= |lines|
          invariant ParseFrom(s, lines[i..]) == all
          invariant s.mode == InBullet(found.value.0)
          invariant s.comments == comments && s.values == values[found.value.0 := value] && s.body == body
        {
          ParseStep(s, lines, i);
          value := value + "\n" + lines[i];
          s := Step(s, lines[i]);
          i := i + 1;
        }
        values := values[found.value.0 := value];
        continue;
      }
      body := body + [line];
      s := Step(s, line);
      i := i + 1;
    }
    assert lines[i..] == [];
    ParseEnd(s);
  }

  lemma ParseEnd(s: State)
    ensures ParseFrom(s, []) == s
  {}

  // ----- what each line is

  /** The lines of kind `k`, in order. */
  function OfKind(lines: seq<string>, kinds: seq<Kind>, k: Kind, n: nat): seq<string>
    requires n <= |lines| && n <= |kinds|
  {
    if n == 0 then [] else OfKind(lines, kinds, k, n - 1) + if kinds[n - 1] == k then [lines[n - 1]] else []
  }

  /** Line `i` stands in the header: it and all lines before it are comments. */
  ghost predicate InHeaderPart(lines: seq<string>, i: nat)
    requires i < |lines|
  {
    forall j :: 0 <= j <= i ==> Meta(lines[j]).Some?
  }

  /** Bullet `b` runs on to line `i`: the lines behind it up to `i` are all indented. */
  ghost predicate RunsTo(lines: seq<string>, b: nat, i: nat)
    requires b < i < |lines|
  {
    BulletOf(lines[b]).Some? && forall j :: b < j <= i ==> Continues(lines[j])
  }

  ghost predicate InBlock(lines: seq<string>, i: nat)
    requires i < |lines|
  {
    exists b :: 0 <= b < i && RunsTo(lines, b, i)
  }

  /** The kind of a line, read off the lines alone. */
  ghost function KindOf(lines: seq<string>, i: nat): Kind
    requires i < |lines|
  {
    if InHeaderPart(lines, i) then HeaderLine
    else if BulletOf(lines[i]).Some? then BulletLine
    else if InBlock(lines, i) then ContinuationLine
    else BodyLine
  }

  /** The mode tells what the last line was. */
  ghost predicate ModeFits(lines: seq<string>, s: State) {
    match s.mode
    case InHeader => lines == [] || InHeaderPart(lines, |lines| - 1)
    case InBullet(key) =>
      && lines != [] && key in s.values
      && (KindOf(lines, |lines| - 1) == BulletLine || KindOf(lines, |lines| - 1) == ContinuationLine)
    case InBody => lines != [] && KindOf(lines, |lines| - 1) == BodyLine
  }

  /** What is true of the first lines once they are parsed. */
  ghost predicate Sorted(lines: seq<string>, s: State) {
    && |s.kinds| == |lines|
    && (forall i :: 0 <= i < |lines| ==> s.kinds[i] == KindOf(lines, i))
    && s.body == OfKind(lines, s.kinds, BodyLine, |lines|)
    && ModeFits(lines, s)
  }

  lemma {:induction false} OfKindSnoc(lines: seq<string>, kinds: seq<Kind>, k: Kind, line: string, kind: Kind, n: nat)
    requires n <= |lines| && n <= |kinds|
    ensures OfKind(lines + [line], kinds + [kind], k, n) == OfKind(lines, kinds, k, n)
  {
    if n > 0 { OfKindSnoc(lines, kinds, k, line, kind, n - 1); }
  }

  /** A line is at most one of comment, bullet and indented line. */
  lemma Disjoint(line: string)
    ensures Meta(line).Some? ==> BulletOf(line).None? && !Continues(line)
    ensures BulletOf(line).Some? ==> !Continues(line)
  {
    if Meta(line).Some? {
      MetaIsComment(line);
      CommentStarts(Meta(line).value.0, Meta(line).value.1);
    }
    if BulletOf(line).Some? { BulletStarts(line); }
  }

  lemma CommentStarts(key: string, value: string)
    ensures Comment(key, value) != "" && Comment(key, value)[0] == '<'
  {}

  lemma BulletStarts(line: string)
    requires BulletOf(line).Some?
    ensures line != "" && line[0] == '-'
  {
    var key := BulletOf(line).value.0;
    assert BulletKey(key) && Bullet(key) <= line;
    assert line[0] == Bullet(key)[0];
  }

  /** More lines behind a line do not change its kind. */
  lemma KindStays(lines: seq<string>, line: string, i: nat)
    requires i < |lines|
    ensures KindOf(lines + [line], i) == KindOf(lines, i)
    ensures InHeaderPart(lines + [line], i) == InHeaderPart(lines, i)
  {
    hide Meta, BulletOf, Continues;
    var more := lines + [line];
    assert forall j :: 0 <= j <= i ==> more[j] == lines[j];
    if InBlock(lines, i) {
      var b :| 0 <= b < i && RunsTo(lines, b, i);
      assert RunsTo(more, b, i);
    }
    if InBlock(more, i) {
      var b :| 0 <= b < i && RunsTo(more, b, i);
      forall j | b < j <= i ensures Continues(lines[j]) { assert Continues(more[j]); }
      assert RunsTo(lines, b, i);
    }
  }

  /** An indented line goes on with the block of the line before it, if that has one. */
  lemma BlockStep(lines: seq<string>, line: string)
    requires lines != [] && Continues(line)
    ensures InBlock(lines + [line], |lines|)
       <==> BulletOf(lines[|lines| - 1]).Some? || InBlock(lines, |lines| - 1)
  {
    hide Meta, BulletOf, Continues;
    var more, n := lines + [line], |lines|;
    if BulletOf(lines[n - 1]).Some? {
      assert RunsTo(more, n - 1, n);
    }
    if InBlock(lines, n - 1) {
      var b :| 0 <= b < n - 1 && RunsTo(lines, b, n - 1);
      assert RunsTo(more, b, n);
    }
    if InBlock(more, n) {
      var b :| 0 <= b < n && RunsTo(more, b, n);
      assert more[b] == lines[b];
      if b < n - 1 {
        forall j | b < j <= n - 1 ensures Continues(lines[j]) { assert Continues(more[j]); }
        assert RunsTo(lines, b, n - 1);
      }
    }
  }

  lemma NotInBlock(lines: seq<string>, i: nat)
    requires i < |lines| && !Continues(lines[i])
    ensures !InBlock(lines, i)
  {
    hide Meta, BulletOf, Continues;
  }

  lemma HeaderStep(lines: seq<string>, line: string)
    ensures InHeaderPart(lines + [line], |lines|)
       <==> Meta(line).Some? && (lines == [] || InHeaderPart(lines, |lines| - 1))
  {
    hide Meta;
    var more := lines + [line];
    assert forall j :: 0 <= j < |lines| ==> more[j] == lines[j];
    assert more[|lines|] == line;
    if InHeaderPart(more, |lines|) && lines != [] {
      forall j | 0 <= j <= |lines| - 1 ensures Meta(lines[j]).Some? { assert Meta(more[j]).Some?; }
    }
  }

  /** The kind of the next line, by the mode the parser is in. */
  lemma NextKind(lines: seq<string>, s: State, line: string)
    requires Sorted(lines, s)
    ensures var t := Step(s, line);
            t.kinds == s.kinds + [KindOf(lines + [line], |lines|)] && ModeFits(lines + [line], t)
  {
    var more, n := lines + [line], |lines|;
    Disjoint(line);
    if lines != [] { Disjoint(lines[n - 1]); }
    HeaderStep(lines, line);
    if Continues(line) && lines != [] { BlockStep(lines, line); }
    if !Continues(line) { NotInBlock(more, n); }
    if lines != [] && !Continues(lines[n - 1]) { NotInBlock(lines, n - 1); }
    assert more[n] == line;
    assert lines == [] ==> !InBlock(more, n);
    hide Meta, BulletOf, Continues, InHeaderPart, InBlock, RightTrim;
  }

  lemma StepSorts(lines: seq<string>, s: State, line: string)
    requires Sorted(lines, s)
    ensures Sorted(lines + [line], Step(s, line))
  {
    NextKind(lines, s, line);
    hide Meta, BulletOf, Continues, RightTrim, KindOf, ModeFits;
    var t := Step(s, line);
    var kind := t.kinds[|s.kinds|];
    OfKindSnoc(lines, s.kinds, BodyLine, line, kind, |lines|);
    var more := lines + [line];
    forall i | 0 <= i < |more| ensures t.kinds[i] == KindOf(more, i) {
      if i < |lines| { KindStays(lines, line, i); }
    }
  }

  lemma {:induction false} ParseSorts(done: seq<string>, s: State, rest: seq<string>)
    requires Sorted(done, s)
    ensures Sorted(done + rest, ParseFrom(s, rest))
    decreases |rest|
  {
    hide Sorted, Step;
    if rest == [] {
      assert done + rest == done;
    } else {
      StepSorts(done, s, rest[0]);
      ParseSorts(done + [rest[0]], Step(s, rest[0]), rest[1..]);
      assert done + [rest[0]] + rest[1..] == done + rest;
    }
  }

  /** Each line of a section is what the lines alone make it: a header comment behind
      comments only, a bullet, an indented line of a bullet's block, or body; the
      body is the body lines in order, so no line is lost or doubled. */
  lemma EveryLineOnce(lines: seq<string>)
    ensures var s := Parsed(lines);
            && |s.kinds| == |lines|
            && (forall i :: 0 <= i < |lines| ==> s.kinds[i] == KindOf(lines, i))
            && s.body == OfKind(lines, s.kinds, BodyLine, |lines|)
  {
    ParseSorts([], START, lines);
    assert [] + lines == lines;
  }

  // ----- what a bullet holds

  lemma BulletIsRead(key: string, value: string)
    requires BulletKey(key)
    ensures BulletOf(Bullet(key) + value) == Some((key, value))
    ensures Meta(Bullet(key) + value) == None && !Continues(Bullet(key) + value)
  {
    var line := Bullet(key) + value;
    assert line[|Bullet(key)|..] == value;
    hide Continues;
    assert line[0] == '-' && line[4] == key[0];
    OtherBullet(line, "Target");
    OtherBullet(line, "Severity");
    OtherBullet(line, "Category");
    NotIndented(line);
  }

  lemma OtherBullet(line: string, key: string)
    requires |line| > 4 && line[0] == '-' && BulletKey(key)
    ensures Bullet(key) <= line ==> line[4] == key[0]
  {
    if Bullet(key) <= line { assert line[4] == Bullet(key)[4]; }
  }

  lemma NotIndented(line: string)
    requires |line| > 4 && line[0] == '-'
    ensures !Continues(line) && Meta(line) == None
  {}

  function Continuations(n: nat): seq<Kind> {
    seq(n, i => ContinuationLine)
  }

  lemma {:induction false} Continued(s: State, conts: seq<string>, rest: seq<string>)
    requires s.mode.InBullet? && s.mode.key in s.values && forall c :: c in conts ==> Continues(c)
    ensures var t := s.(values := s.values[s.mode.key := JoinLines([s.values[s.mode.key]] + conts)],
                         kinds := s.kinds + Continuations(|conts|));
            ParseFrom(s, conts + rest) == ParseFrom(t, rest)
    decreases |conts|
  {
    hide Continues, BulletOf, Meta;
    var value := s.values[s.mode.key];
    if conts == [] {
      JoinOne(value);
      assert conts + rest == rest && [value] + conts == [value];
      assert s.values[s.mode.key := value] == s.values && s.kinds + Continuations(0) == s.kinds;
    } else {
      assert conts[0] in conts;
      assert (conts + rest)[1..] == conts[1..] + rest;
      var next := Step(s, conts[0]);
      Continued(next, conts[1..], rest);
      JoinTwo(value, conts);
      assert s.kinds + [ContinuationLine] + Continuations(|conts| - 1) == s.kinds + Continuations(|conts|);
      var joined := JoinLines([value] + conts);
      assert next.values[s.mode.key := joined] == s.values[s.mode.key := joined];
    }
  }

  lemma JoinTwo(value: string, conts: seq<string>)
    requires conts != []
    ensures JoinLines([value] + conts) == JoinLines([value + "\n" + conts[0]] + conts[1..])
  {
    hide JoinLines;
    var first, tail := conts[0], conts[1..];
    assert conts == [first] + tail;
    JoinConcat([value], conts);
    JoinOne(value);
    JoinOne(first);
    JoinOne(value + "\n" + first);
    if tail == [] {
      assert conts == [first] && [value + "\n" + first] + tail == [value + "\n" + first];
    } else {
      JoinConcat([first], tail);
      JoinConcat([value + "\n" + first], tail);
      Regroup(value + "\n", first, "\n", JoinLines(tail));
    }
  }

  lemma Regroup(a: string, b: string, c: string, d: string)
    ensures a + (b + c + d) == a + b + c + d
  {}

  /** A bullet with its indented lines, anywhere in a section, becomes one value of
      its key and leaves comments and body alone. */
  lemma BulletBlockIsOneValue(s: State, key: string, value: string, conts: seq<string>, rest: seq<string>)
    requires BulletKey(key) && forall c :: c in conts ==> Continues(c)
    ensures var t := State(InBullet(key), s.comments, s.values[key := JoinLines([RightTrim(value)] + conts)],
                           s.body, s.kinds + [BulletLine] + Continuations(|conts|));
            ParseFrom(s, [Bullet(key) + value] + conts + rest) == ParseFrom(t, rest)
  {
    hide Continues, BulletOf, Meta, RightTrim, JoinLines;
    BulletIsRead(key, value);
    var line := Bullet(key) + value;
    assert ([line] + conts + rest)[1..] == conts + rest;
    var next := Step(s, line);
    Continued(next, conts, rest);
    var joined := JoinLines([RightTrim(value)] + conts);
    assert next.values[key := joined] == s.values[key := joined];
  }

  // ----- the rewrite

  /** `prior` gives the display name an earlier registry has for an anchor, "" for
      none. A section without a uid is refused. */
  function Rewritten(text: string, stem: string, prior: string -> string): Option<string> {
    var s := Parsed(Lines(text));
    if "uid" !in s.comments || s.comments["uid"] == "" then None
    else
      var anchor := if "anchor" in s.comments then s.comments["anchor"] else stem;
      var name := if "name" in s.comments && s.comments["name"] != "" then s.comments["name"] else prior(anchor);
      Some(RewrittenText(s.comments["uid"], anchor, name, if s.body == [] then "" else Strip(JoinLines(s.body))))
  }

  function RewrittenText(uid: string, anchor: string, name: string, prose: string): string {
    Comment("uid", uid) + "\n" + (Comment("anchor", anchor) + "\n"
    + if name == "" then "" + "\n" + (prose + "\n") else Comment("name", name) + "\n" + ("" + "\n" + (prose + "\n")))
  }

  /** The text a section is rewritten to. */
  lemma RewrittenTextIs(uid: string, anchor: string, name: string, prose: string)
    ensures var first, second := "<!-- uid: " + uid + " -->", "<!-- anchor: " + anchor + " -->";
            var third := "<!-- name: " + name + " -->";
            RewrittenText(uid, anchor, name, prose)
            == first + "\n" + second + "\n" + (if name == "" then "" else third + "\n") + "\n" + prose + "\n"
  {
    CommentText("uid", uid);
    CommentText("anchor", anchor);
    CommentText("name", name);
    hide Comment;
    GlueLines(Comment("uid", uid), Comment("anchor", anchor), Comment("name", name), prose);
  }

  lemma GlueLines(a: string, b: string, c: string, prose: string)
    ensures a + "\n" + (b + "\n" + ("" + "\n" + (prose + "\n"))) == a + "\n" + b + "\n" + "" + "\n" + prose + "\n"
    ensures a + "\n" + (b + "\n" + (c + "\n" + ("" + "\n" + (prose + "\n"))))
         == a + "\n" + b + "\n" + (c + "\n") + "\n" + prose + "\n"
  {}

  /** No line is a bullet. */
  ghost predicate NoBullets(lines: seq<string>) {
    forall l :: l in lines ==> BulletOf(l).None?
  }

  /** Lines without bullets behind the header all become body. */
  lemma {:induction false} ParseBody(s: State, lines: seq<string>)
    requires s.mode.InBody? && NoBullets(lines)
    ensures ParseFrom(s, lines).comments == s.comments && ParseFrom(s, lines).body == s.body + lines
    decreases |lines|
  {
    hide BulletOf, Meta, Continues;
    if lines == [] {
      assert s.body + lines == s.body;
    } else {
      assert lines[0] in lines;
      assert forall l :: l in lines[1..] ==> l in lines;
      ParseBody(Step(s, lines[0]), lines[1..]);
      assert s.body + [lines[0]] + lines[1..] == s.body + lines;
    }
  }

  lemma ParseHeaderLine(s: State, key: string, value: string, rest: seq<string>)
    requires s.mode.InHeader? && HeaderKey(key)
    ensures var t := s.(comments := s.comments[key := value], kinds := s.kinds + [HeaderLine]);
            ParseFrom(s, [Comment(key, value)] + rest) == ParseFrom(t, rest)
  {
    hide Meta, Comment;
    MetaOfComment(key, value);
    assert ([Comment(key, value)] + rest)[1..] == rest;
  }

  lemma EmptyLine()
    ensures Meta("") == None && BulletOf("") == None && !Continues("")
  {}

  /** Behind the header: the blank line, the prose and the final newline. */
  lemma ParseProse(s: State, prose: string)
    requires s.mode.InHeader? && s.body == [] && NoBullets(Lines(prose))
    ensures var t := ParseFrom(s, [""] + Lines(prose + "\n"));
            t.comments == s.comments && t.body == [""] + Lines(prose + "\n")
  {
    hide BulletOf, Meta, Continues, Lines, ParseFrom;
    EmptyLine();
    LinesSnoc(prose);
    var lines := [""] + Lines(prose + "\n");
    ParseStep(s, lines, 0);
    assert lines[0..] == lines && lines[1..] == Lines(prose + "\n");
    ParseBody(Step(s, ""), Lines(prose + "\n"));
  }

  lemma ProseSurvives(prose: string)
    requires Stripped(prose)
    ensures Strip(JoinLines([""] + Lines(prose + "\n"))) == prose
  {
    hide Lines, JoinLines, Strip;
    LinesAreSingle(prose + "\n");
    JoinConcat([""], Lines(prose + "\n"));
    JoinOne("");
    assert "" + "\n" + (prose + "\n") == "\n" + prose + "\n";
    StripIgnoresNewlines(prose);
    StrippedIsFixed(prose);
  }

  /** The header comments a section is written with. */
  function HeaderOf(uid: string, anchor: string, name: string): seq<string> {
    [Comment("uid", uid)] + ([Comment("anchor", anchor)] + if name == "" then [] else [Comment("name", name)])
  }

  lemma RewrittenLines(uid: string, anchor: string, name: string, prose: string)
    requires OneLine(uid) && OneLine(anchor) && OneLine(name)
    ensures Lines(RewrittenText(uid, anchor, name, prose)) == HeaderOf(uid, anchor, name) + ([""] + Lines(prose + "\n"))
  {
    hide Lines, Comment;
    CommentIsOneLine("uid", uid);
    CommentIsOneLine("anchor", anchor);
    CommentIsOneLine("name", name);
    var tail := "" + "\n" + (prose + "\n");
    LinesCons("", prose + "\n");
    LinesCons(Comment("name", name), tail);
    var named := if name == "" then tail else Comment("name", name) + "\n" + tail;
    LinesCons(Comment("anchor", anchor), named);
    LinesCons(Comment("uid", uid), Comment("anchor", anchor) + "\n" + named);
    assert Comment("uid", uid) + "\n" + (Comment("anchor", anchor) + "\n" + named)
        == RewrittenText(uid, anchor, name, prose);
  }

  function CommentsOf(uid: string, anchor: string, name: string): map<string, string> {
    if name == "" then map["uid" := uid, "anchor" := anchor] else map["uid" := uid, "anchor" := anchor, "name" := name]
  }

  lemma ParseHeader(uid: string, anchor: string, name: string, rest: seq<string>)
    ensures var s := ParseFrom(START, HeaderOf(uid, anchor, name) + rest);
            exists t: State :: t.mode.InHeader? && t.body == [] && t.comments == CommentsOf(uid, anchor, name)
                               && s == ParseFrom(t, rest)
  {
    hide Comment, ParseFrom;
    var named := if name == "" then [] else [Comment("name", name)];
    var s1 := State(InHeader, map["uid" := uid], map[], [], [HeaderLine]);
    var s2 := State(InHeader, map["uid" := uid, "anchor" := anchor], map[], [], [HeaderLine, HeaderLine]);
    assert START.comments["uid" := uid] == s1.comments && s1.comments["anchor" := anchor] == s2.comments;
    assert START.kinds + [HeaderLine] == s1.kinds && s1.kinds + [HeaderLine] == s2.kinds;
    ParseHeaderLine(START, "uid", uid, [Comment("anchor", anchor)] + named + rest);
    ParseHeaderLine(s1, "anchor", anchor, named + rest);
    assert HeaderOf(uid, anchor, name) + rest == [Comment("uid", uid)] + ([Comment("anchor", anchor)] + named + rest);
    assert [Comment("anchor", anchor)] + named + rest == [Comment("anchor", anchor)] + (named + rest);
    if name == "" {
      assert named + rest == rest;
      assert s2.mode.InHeader?;
    } else {
      ParseHeaderLine(s2, "name", name, rest);
      var s3 := s2.(comments := s2.comments["name" := name], kinds := s2.kinds + [HeaderLine]);
      assert s3.mode.InHeader?;
      assert s3.comments == CommentsOf(uid, anchor, name);
    }
  }

  /** Writing a section and parsing it gives back the comments and the prose. */
  lemma ParseRewritten(uid: string, anchor: string, name: string, prose: string)
    requires OneLine(uid) && OneLine(anchor) && OneLine(name)
    requires NoBullets(Lines(prose))
    ensures var s := Parsed(Lines(RewrittenText(uid, anchor, name, prose)));
            s.comments == CommentsOf(uid, anchor, name) && s.body == [""] + Lines(prose + "\n")
  {
    hide Lines, RewrittenText, HeaderOf, CommentsOf, ParseFrom;
    var rest := [""] + Lines(prose + "\n");
    RewrittenLines(uid, anchor, name, prose);
    ParseHeader(uid, anchor, name, rest);
    var t: State :| t.mode.InHeader? && t.body == [] && t.comments == CommentsOf(uid, anchor, name)
                    && ParseFrom(START, HeaderOf(uid, anchor, name) + rest) == ParseFrom(t, rest);
    ParseProse(t, prose);
  }

  /** Stripping and joining the body of a parse brings no bullet back. */
  lemma ProseHasNoBullets(lines: seq<string>)
    requires forall l :: l in lines ==> OneLine(l)
    ensures var body := Parsed(lines).body; NoBullets(Lines(if body == [] then "" else Strip(JoinLines(body))))
  {
    hide BulletOf, Lines, JoinLines, StripLeft, StripRight;
    var s := Parsed(lines);
    EveryLineOnce(lines);
    BodyLines(lines, s.kinds, |lines|);
    if s.body == [] {
      EmptyText();
      EmptyLine();
    } else {
      LinesOfJoin(s.body);
      LinesOfStripLeft(JoinLines(s.body));
      LinesOfStripRight(StripLeft(JoinLines(s.body)));
    }
  }

  lemma EmptyText()
    ensures Lines("") == [""]
  {}

  lemma {:induction false} BodyLines(lines: seq<string>, kinds: seq<Kind>, n: nat)
    requires n <= |lines| == |kinds|
    requires forall i :: 0 <= i < |lines| ==> kinds[i] == KindOf(lines, i)
    ensures forall l :: l in OfKind(lines, kinds, BodyLine, n) ==> l in lines && BulletOf(l).None?
  {
    hide BulletOf, Meta, Continues;
    if n > 0 {
      BodyLines(lines, kinds, n - 1);
      assert kinds[n - 1] == KindOf(lines, n - 1);
    }
  }

  lemma {:induction false} LinesOfJoin(ls: seq<string>)
    requires ls != [] && forall l :: l in ls ==> OneLine(l)
    ensures Lines(JoinLines(ls)) == ls
  {
    assert ls == [ls[0]] + ls[1..];
    assert ls[0] in ls;
    if |ls| == 1 {
      LinesOfOne(ls[0]);
    } else {
      hide Lines;
      LinesOfJoin(ls[1..]);
      LinesCons(ls[0], JoinLines(ls[1..]));
    }
  }

  lemma {:induction false} LinesOfOne(l: string)
    requires OneLine(l)
    ensures Lines(l) == [l]
  {
    if l != "" {
      LinesOfOne(l[1..]);
      assert l == [l[0]] + l[1..];
      assert Lines(l) == [[l[0]] + l[1..]] + [];
    }
  }

  /** The parsed comments hold no newline. */
  lemma {:induction false} CommentsAreSingle(s: State, lines: seq<string>)
    requires forall l :: l in lines ==> OneLine(l)
    requires forall k :: k in s.comments ==> OneLine(s.comments[k])
    ensures forall k :: k in ParseFrom(s, lines).comments ==> OneLine(ParseFrom(s, lines).comments[k])
    decreases |lines|
  {
    hide Meta, BulletOf, Continues, RightTrim;
    if lines != [] {
      assert lines[0] in lines;
      assert forall l :: l in lines[1..] ==> l in lines;
      MetaIsComment(lines[0]);
      if Meta(lines[0]).Some? { ValueIsSingle(Meta(lines[0]).value.0, Meta(lines[0]).value.1); }
      CommentsAreSingle(Step(s, lines[0]), lines[1..]);
    }
  }

  lemma ValueIsSingle(key: string, value: string)
    requires OneLine(Comment(key, value))
    ensures OneLine(value)
  {
    var line := Comment(key, value);
    var at := |"<!-- " + key + ": "|;
    assert line == ("<!-- " + key + ": ") + (value + " -->");
    assert forall i :: 0 <= i < |value| ==> line[at + i] == value[i];
  }

  /** One pass is enough: rewriting a rewritten section changes nothing. The names
      that come from outside must be single lines. */
  lemma RewriteIsFixedPoint(text: string, stem: string, prior: string -> string)
    requires OneLine(stem) && forall a :: OneLine(prior(a))
    requires Rewritten(text, stem, prior).Some?
    ensures Rewritten(Rewritten(text, stem, prior).value, stem, prior) == Rewritten(text, stem, prior)
  {
    hide Lines, RewrittenText, Parsed, JoinLines, Strip;
    var lines := Lines(text);
    var s := Parsed(lines);
    LinesAreSingle(text);
    ParsedComments(lines);
    ProseHasNoBullets(lines);
    var uid := s.comments["uid"];
    var anchor := if "anchor" in s.comments then s.comments["anchor"] else stem;
    var name := if "name" in s.comments && s.comments["name"] != "" then s.comments["name"] else prior(anchor);
    var prose := if s.body == [] then "" else Strip(JoinLines(s.body));
    if s.body != [] { StripIsStripped(JoinLines(s.body)); }
    ParseRewritten(uid, anchor, name, prose);
    ProseSurvives(prose);
  }

  /** The prose of a body: joined, without newlines at its ends. */
  function ProseOf(body: seq<string>): string {
    if body == [] then "" else Strip(JoinLines(body))
  }

  /** Rewriting a section keeps its prose. */
  lemma RewriteKeepsProse(text: string, stem: string, prior: string -> string)
    requires OneLine(stem) && forall a :: OneLine(prior(a))
    requires Rewritten(text, stem, prior).Some?
    ensures ProseOf(Parsed(Lines(Rewritten(text, stem, prior).value)).body) == ProseOf(Parsed(Lines(text)).body)
  {
    hide Lines, RewrittenText, Parsed, JoinLines, Strip;
    var lines := Lines(text);
    var s := Parsed(lines);
    LinesAreSingle(text);
    ParsedComments(lines);
    ProseHasNoBullets(lines);
    var uid := s.comments["uid"];
    var anchor := if "anchor" in s.comments then s.comments["anchor"] else stem;
    var name := if "name" in s.comments && s.comments["name"] != "" then s.comments["name"] else prior(anchor);
    var prose := ProseOf(s.body);
    if s.body != [] { StripIsStripped(JoinLines(s.body)); }
    ParseRewritten(uid, anchor, name, prose);
    ProseSurvives(prose);
  }

  lemma ParsedComments(lines: seq<string>)
    requires forall l :: l in lines ==> OneLine(l)
    ensures forall k :: k in Parsed(lines).comments ==> OneLine(Parsed(lines).comments[k])
  {
    CommentsAreSingle(START, lines);
  }
}
