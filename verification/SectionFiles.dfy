/** The section source files of the rule pages: what the splitter prints, what the
    index builder reads back, and the registry bootstrap that takes the metadata
    bullets out of them. Lines end in "\n"; a line is text without it. */
module SectionFiles {
  import opened Options

  // ----- lines

  function Lines(s: string): (ls: seq<string>)
    ensures ls != []
  {
    if s == "" then [""]
    else
      var rest := Lines(s[1..]);
      if s[0] == '\n' then [""] + rest else [[s[0]] + rest[0]] + rest[1..]
  }

  function JoinLines(ls: seq<string>): string
    requires ls != []
  {
    if |ls| == 1 then ls[0] else ls[0] + "\n" + JoinLines(ls[1..])
  }

  ghost predicate OneLine(s: string) {
    '\n' !in s
  }

  lemma {:induction false} LinesAreSingle(s: string)
    ensures forall l :: l in Lines(s) ==> OneLine(l)
    ensures JoinLines(Lines(s)) == s
  {
    if s != "" {
      LinesAreSingle(s[1..]);
      var rest := Lines(s[1..]);
      assert rest == [rest[0]] + rest[1..];
      if s[0] == '\n' {
        assert ([""] + rest)[1..] == rest;
      } else {
        assert rest[0] in rest;
        var ls := [[s[0]] + rest[0]] + rest[1..];
        assert ls[1..] == rest[1..];
      }
    }
  }

  /** A line followed by the rest of a text. */
  lemma {:induction false} LinesCons(a: string, b: string)
    requires OneLine(a)
    ensures Lines(a + "\n" + b) == [a] + Lines(b)
  {
    var s := a + "\n" + b;
    if a == "" {
      assert s[1..] == b;
    } else {
      LinesCons(a[1..], b);
      assert s[1..] == a[1..] + "\n" + b;
      assert ([a[1..]] + Lines(b))[1..] == Lines(b);
      assert [s[0]] + a[1..] == a;
    }
  }

  lemma {:induction false} LinesSnoc(s: string)
    ensures Lines(s + "\n") == Lines(s) + [""]
  {
    if s == "" {
      assert ("" + "\n")[1..] == "";
    } else {
      LinesSnoc(s[1..]);
      assert (s + "\n")[1..] == s[1..] + "\n";
      var rest := Lines(s[1..]);
      assert (rest + [""])[1..] == rest[1..] + [""];
    }
  }

  lemma {:induction false} JoinConcat(ls: seq<string>, ms: seq<string>)
    requires ls != [] && ms != []
    ensures JoinLines(ls + ms) == JoinLines(ls) + "\n" + JoinLines(ms)
  {
    if |ls| == 1 {
      assert (ls + ms)[1..] == ms;
    } else {
      JoinConcat(ls[1..], ms);
      assert (ls + ms)[1..] == ls[1..] + ms;
      assert ls[0] + "\n" + (JoinLines(ls[1..]) + "\n" + JoinLines(ms))
          == ls[0] + "\n" + JoinLines(ls[1..]) + "\n" + JoinLines(ms);
    }
  }

  // ----- `strip("\n")`

  function StripLeft(s: string): string {
    if s != "" && s[0] == '\n' then StripLeft(s[1..]) else s
  }

  function StripRight(s: string): string {
    if s != "" && s[|s| - 1] == '\n' then StripRight(s[..|s| - 1]) else s
  }

  function Strip(s: string): string {
    StripRight(StripLeft(s))
  }

  /** Stripped text: no newline at either end. */
  ghost predicate Stripped(s: string) {
    s == "" || (s[0] != '\n' && s[|s| - 1] != '\n')
  }

  lemma {:induction false} StripRightShape(s: string)
    ensures StripRight(s) <= s
    ensures StripRight(s) == "" || StripRight(s)[|StripRight(s)| - 1] != '\n'
  {
    if s != "" && s[|s| - 1] == '\n' { StripRightShape(s[..|s| - 1]); }
  }

  lemma {:induction false} StripLeftShape(s: string)
    ensures StripLeft(s) == "" || StripLeft(s)[0] != '\n'
    ensures StripLeft(s) == "" || StripLeft(s)[|StripLeft(s)| - 1] == s[|s| - 1]
  {
    if s != "" && s[0] == '\n' { StripLeftShape(s[1..]); }
  }

  lemma StripIsStripped(s: string)
    ensures Stripped(Strip(s))
  {
    StripLeftShape(s);
    StripRightShape(StripLeft(s));
  }

  lemma StrippedIsFixed(s: string)
    requires Stripped(s)
    ensures Strip(s) == s
  {}

  lemma {:induction false} StripLeftSnoc(s: string)
    ensures StripLeft(s + "\n") == if StripLeft(s) == "" then "" else StripLeft(s) + "\n"
  {
    if s == "" {
      assert ("" + "\n")[1..] == "";
    } else if s[0] == '\n' {
      StripLeftSnoc(s[1..]);
      assert (s + "\n")[1..] == s[1..] + "\n";
    }
  }

  /** Newlines around a text do not matter to `strip`. */
  lemma StripIgnoresNewlines(s: string)
    ensures Strip("\n" + s + "\n") == Strip(s)
  {
    assert ("\n" + s + "\n")[1..] == s + "\n";
    StripLeftSnoc(s);
    if StripLeft(s) != "" {
      var t := StripLeft(s) + "\n";
      assert t[..|t| - 1] == StripLeft(s);
    }
  }

  lemma {:induction false} LinesOfStripLeft(s: string)
    ensures forall l :: l in Lines(StripLeft(s)) ==> l in Lines(s)
  {
    if s != "" && s[0] == '\n' {
      LinesOfStripLeft(s[1..]);
      assert Lines(s) == [""] + Lines(s[1..]);
    }
  }

  lemma {:induction false} LinesOfStripRight(s: string)
    ensures forall l :: l in Lines(StripRight(s)) ==> l in Lines(s)
  {
    if s != "" && s[|s| - 1] == '\n' {
      var t := s[..|s| - 1];
      LinesOfStripRight(t);
      LinesSnoc(t);
      assert s == t + "\n";
    }
  }

  // ----- header comments

  predicate HeaderKey(key: string) {
    key == "uid" || key == "name" || key == "anchor"
  }

  function Comment(key: string, value: string): string {
    "<!-- " + key + ": " + value + " -->"
  }

  /** The value of a header line for this key. */
  function MetaValue(line: string, key: string): Option<string> {
    var prefix := "<!-- " + key + ": ";
    if |line| >= |prefix| + 4 && line[..|prefix|] == prefix && line[|line| - 4..] == " -->"
    then Some(line[|prefix|..|line| - 4]) else None
  }

  /** A header line: its key and value. */
  function Meta(line: string): Option<(string, string)> {
    if MetaValue(line, "uid").Some? then Some(("uid", MetaValue(line, "uid").value))
    else if MetaValue(line, "name").Some? then Some(("name", MetaValue(line, "name").value))
    else if MetaValue(line, "anchor").Some? then Some(("anchor", MetaValue(line, "anchor").value))
    else None
  }

  lemma MetaValueOfComment(key: string, value: string)
    ensures MetaValue(Comment(key, value), key) == Some(value)
  {
    var line, prefix := Comment(key, value), "<!-- " + key + ": ";
    assert line == prefix + value + " -->";
    assert line[..|prefix|] == prefix;
    assert line[|line| - 4..] == " -->";
  }

  lemma OtherKey(key: string, value: string, other: string)
    requires HeaderKey(key) && HeaderKey(other) && key != other
    ensures MetaValue(Comment(key, value), other) == None
  {
    var line, prefix := Comment(key, value), "<!-- " + other + ": ";
    assert line[5] == key[0];
    assert prefix[5] == other[0];
    if |line| >= |prefix| { assert line[..|prefix|][5] == line[5]; }
  }

  /** Printing and reading a header line are inverse, whatever the value holds. */
  lemma MetaOfComment(key: string, value: string)
    requires HeaderKey(key)
    ensures Meta(Comment(key, value)) == Some((key, value))
  {
    hide MetaValue, Comment;
    MetaValueOfComment(key, value);
    forall other | HeaderKey(other) && other != key ensures MetaValue(Comment(key, value), other) == None {
      OtherKey(key, value, other);
    }
    assert HeaderKey("uid") && HeaderKey("name") && HeaderKey("anchor");
  }

  lemma MetaIsComment(line: string)
    ensures Meta(line).Some? ==>
              HeaderKey(Meta(line).value.0) && line == Comment(Meta(line).value.0, Meta(line).value.1)
  {
    if Meta(line).Some? {
      var (key, value) := Meta(line).value;
      var prefix := "<!-- " + key + ": ";
      assert line == line[..|prefix|] + line[|prefix|..|line| - 4] + line[|line| - 4..];
    }
  }

  /** What a header line is: one of three keys and any value between these marks. */
  lemma MetaMeaning(line: string, key: string, value: string)
    ensures Meta(line) == Some((key, value))
       <==> (key == "uid" || key == "name" || key == "anchor") && line == "<!-- " + key + ": " + value + " -->"
  {
    hide Meta;
    MetaIsComment(line);
    if HeaderKey(key) { MetaOfComment(key, value); }
  }

  lemma EmptyIsNoMeta()
    ensures Meta("") == None
  {}

  lemma CommentIsOneLine(key: string, value: string)
    requires HeaderKey(key) && OneLine(value)
    ensures OneLine(Comment(key, value))
  {
    assert OneLine("<!-- ") && OneLine(key) && OneLine(": ") && OneLine(" -->");
  }

  // ----- the splitter and the index builder

  /** A section source as the splitter writes it. */
  function Printed(uid: string, name: string, anchor: string, body: string): string {
    Comment("uid", uid) + "\n" + (Comment("name", name) + "\n"
    + (Comment("anchor", anchor) + "\n" + ("" + "\n" + (body + "\n"))))
  }

  /** The text of a section source. */
  lemma PrintedIs(uid: string, name: string, anchor: string, body: string)
    ensures var first, second := "<!-- uid: " + uid + " -->", "<!-- name: " + name + " -->";
            var third := "<!-- anchor: " + anchor + " -->";
            Printed(uid, name, anchor, body)
            == first + "\n" + second + "\n" + third + "\n\n" + body + "\n"
  {
    CommentText("uid", uid);
    CommentText("name", name);
    CommentText("anchor", anchor);
    hide Comment;
    Glue(Comment("uid", uid), Comment("name", name), Comment("anchor", anchor), body);
  }

  lemma CommentText(key: string, value: string)
    ensures Comment(key, value) == "<!-- " + key + ": " + value + " -->"
  {}

  lemma Glue(a: string, b: string, c: string, body: string)
    ensures a + "\n" + (b + "\n" + (c + "\n" + ("" + "\n" + (body + "\n"))))
         == a + "\n" + b + "\n" + c + "\n\n" + body + "\n"
  {}

  /** `strip("\n")` takes off newlines at both ends and nothing else. */
  lemma StripMeaning(s: string) returns (before: string, after: string)
    ensures s == before + Strip(s) + after && Stripped(Strip(s))
    ensures forall i :: 0 <= i < |before| ==> before[i] == '\n'
    ensures forall i :: 0 <= i < |after| ==> after[i] == '\n'
  {
    before := LeftPart(s);
    after := RightPart(StripLeft(s));
    StripIsStripped(s);
  }

  lemma {:induction false} LeftPart(s: string) returns (before: string)
    ensures s == before + StripLeft(s) && forall i :: 0 <= i < |before| ==> before[i] == '\n'
  {
    if s != "" && s[0] == '\n' {
      before := LeftPart(s[1..]);
      before := "\n" + before;
    } else {
      before := "";
    }
  }

  lemma {:induction false} RightPart(s: string) returns (after: string)
    ensures s == StripRight(s) + after && forall i :: 0 <= i < |after| ==> after[i] == '\n'
  {
    if s != "" && s[|s| - 1] == '\n' {
      after := RightPart(s[..|s| - 1]);
      after := after + "\n";
    } else {
      after := "";
    }
  }

  /** The header is all lines up to the first that is no comment. */
  lemma {:induction false} HeaderSplits(lines: seq<string>, meta: map<string, string>)
    ensures var rest := Header(lines, meta).1;
            && |rest| <= |lines| && rest == lines[|lines| - |rest|..]
            && (forall i :: 0 <= i < |lines| - |rest| ==> Meta(lines[i]).Some?)
            && (rest != [] ==> Meta(rest[0]).None?)
  {
    hide Meta;
    if lines != [] && Meta(lines[0]).Some? {
      HeaderSplits(lines[1..], meta[Meta(lines[0]).value.0 := Meta(lines[0]).value.1]);
    }
  }

  /** Header comments up to the first line that is none, and the text behind. */
  method Section(text: string) returns (meta: map<string, string>, body: string)
    ensures var (m, rest) := Header(Lines(text), map[]);
            meta == m && body == if rest == [] then "" else Strip(JoinLines(rest))
  {
    hide Strip, JoinLines, Meta, Lines;
    var lines := Lines(text);
    meta := map[];
    var index := 0;
    assert lines[0..] == lines;
    while index < |lines|
      invariant 0 <= index <= |lines|
      invariant Header(lines, map[]) == Header(lines[index..], meta)
    {
      var found := Meta(lines[index]);
      assert lines[index..][1..] == lines[index + 1..];
      if found.None? {
        return meta, Strip(JoinLines(lines[index..]));
      }
      meta := meta[found.value.0 := found.value.1];
      index := index + 1;
    }
    body := "";
  }

  function Header(lines: seq<string>, meta: map<string, string>): (map<string, string>, seq<string>) {
    if lines == [] || Meta(lines[0]).None? then (meta, lines)
    else Header(lines[1..], meta[Meta(lines[0]).value.0 := Meta(lines[0]).value.1])
  }

  lemma HeaderCons(key: string, value: string, rest: seq<string>, meta: map<string, string>)
    requires HeaderKey(key)
    ensures Header([Comment(key, value)] + rest, meta) == Header(rest, meta[key := value])
  {
    hide Meta, Comment;
    MetaOfComment(key, value);
    assert ([Comment(key, value)] + rest)[1..] == rest;
  }

  lemma PrintedLines(uid: string, name: string, anchor: string, body: string)
    requires OneLine(uid) && OneLine(name) && OneLine(anchor)
    ensures Lines(Printed(uid, name, anchor, body))
         == [Comment("uid", uid)] + ([Comment("name", name)]
            + ([Comment("anchor", anchor)] + ([""] + Lines(body + "\n"))))
  {
    hide Lines, Comment;
    CommentIsOneLine("uid", uid);
    CommentIsOneLine("name", name);
    CommentIsOneLine("anchor", anchor);
    LinesCons("", body + "\n");
    LinesCons(Comment("anchor", anchor), "" + "\n" + (body + "\n"));
    LinesCons(Comment("name", name), Comment("anchor", anchor) + "\n" + ("" + "\n" + (body + "\n")));
    LinesCons(Comment("uid", uid), Comment("name", name) + "\n"
              + (Comment("anchor", anchor) + "\n" + ("" + "\n" + (body + "\n"))));
  }

  /** What the splitter prints is read back: the three comments and the body without
      newlines at its ends, even a body that starts with header-like lines. */
  lemma SectionRoundTrip(uid: string, name: string, anchor: string, body: string)
    requires OneLine(uid) && OneLine(name) && OneLine(anchor)
    ensures var (meta, rest) := Header(Lines(Printed(uid, name, anchor, body)), map[]);
            && meta == map["uid" := uid, "name" := name, "anchor" := anchor]
            && rest != [] && Strip(JoinLines(rest)) == Strip(body)
  {
    hide Lines, Comment, Strip, JoinLines, Header, Meta, Printed;
    var rest := [""] + Lines(body + "\n");
    PrintedLines(uid, name, anchor, body);
    HeaderCons("uid", uid, [Comment("name", name)] + ([Comment("anchor", anchor)] + rest), map[]);
    HeaderCons("name", name, [Comment("anchor", anchor)] + rest, map[][("uid") := uid]);
    HeaderCons("anchor", anchor, rest, map[][("uid") := uid][("name") := name]);
    HeaderEnds(rest, map[][("uid") := uid][("name") := name][("anchor") := anchor]);
    LinesAreSingle(body + "\n");
    JoinConcat([""], Lines(body + "\n"));
    JoinOne("");
    assert "" + "\n" + (body + "\n") == "\n" + body + "\n";
    StripIgnoresNewlines(body);
  }

  lemma JoinOne(s: string)
    ensures JoinLines([s]) == s
  {}

  lemma HeaderEnds(rest: seq<string>, meta: map<string, string>)
    requires rest != [] && rest[0] == ""
    ensures Header(rest, meta) == (meta, rest)
  {
    hide Meta;
    EmptyIsNoMeta();
  }
}
