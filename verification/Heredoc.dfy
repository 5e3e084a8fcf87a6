/** The heredoc opener parser: `<<`, an optional `-`, blanks, then a delimiter
    word made of bare characters, backslash escapes and quoted spans.

    The parser is compared with a printer: a word is a sequence of segments, and
    an opener parses exactly when the line shows the print of some segments. */
module Heredoc {
  import opened Options

  datatype Word = Word(text: string, rest: string)
  datatype Opener = Opener(delimiter: string, stripTabs: bool, end: nat)

  // ----- the printed form

  /** One way to write part of a word. */
  datatype Seg =
    | Bare(c: char)
    | Escaped(c: char)
    | Single(body: string)
    | Double(parts: seq<Part>)

  datatype Part = Raw(c: char) | Esc(c: char)

  /** A segment that prints as itself, `rest` being everything after it. A bare
      backslash stands for itself only as the last character of the line. */
  predicate ValidSeg(seg: Seg, rest: string) {
    match seg
    case Bare(c) => c !in " \t;|&<>()" && c != '\'' && c != '"' && (c == '\\' ==> rest == "")
    case Escaped(_) => true
    case Single(body) => '\'' !in body
    case Double(parts) => forall p :: p in parts ==> p.Raw? ==> p.c != '"' && p.c != '\\'
  }

  function PrintParts(parts: seq<Part>): string {
    if parts == [] then ""
    else (match parts[0] case Raw(c) => [c] case Esc(c) => ['\\', c]) + PrintParts(parts[1..])
  }

  function PartsText(parts: seq<Part>): string {
    if parts == [] then "" else [parts[0].c] + PartsText(parts[1..])
  }

  function PrintSeg(seg: Seg): string {
    match seg
    case Bare(c) => [c]
    case Escaped(c) => ['\\', c]
    case Single(body) => "'" + body + "'"
    case Double(parts) => "\"" + PrintParts(parts) + "\""
  }

  function SegText(seg: Seg): string {
    match seg
    case Bare(c) => [c]
    case Escaped(c) => [c]
    case Single(body) => body
    case Double(parts) => PartsText(parts)
  }

  function Print(segs: seq<Seg>): string {
    if segs == [] then "" else PrintSeg(segs[0]) + Print(segs[1..])
  }

  function Text(segs: seq<Seg>): string {
    if segs == [] then "" else SegText(segs[0]) + Text(segs[1..])
  }

  predicate Valid(segs: seq<Seg>, rest: string) {
    segs == [] || (ValidSeg(segs[0], Print(segs[1..]) + rest) && Valid(segs[1..], rest))
  }

  /** The word ends at the end of the line or before a terminator. */
  predicate Ends(rest: string) {
    rest == "" || rest[0] in " \t;|&<>()"
  }

  // ----- the parser

  predicate Terminator(c: char) {
    c in " \t;|&<>()"
  }

  datatype Mode = Unquoted | InQuote(q: char)

  /** What the loop computes on the text from here on: the characters of the word
      and the text after it, or nothing when a quote stays open. */
  function Scan(s: string, mode: Mode): Option<Word>
    decreases |s|
  {
    if s == "" then if mode.InQuote? then None else Some(Word("", ""))
    else if mode.InQuote? then
      if s[0] == '\\' && mode.q == '"' && |s| > 1 then Prepend([s[1]], Scan(s[2..], mode))
      else if s[0] == mode.q then Scan(s[1..], Unquoted)
      else Prepend([s[0]], Scan(s[1..], mode))
    else if s[0] == '\'' || s[0] == '"' then Scan(s[1..], InQuote(s[0]))
    else if s[0] == '\\' && |s| > 1 then Prepend([s[1]], Scan(s[2..], mode))
    else if Terminator(s[0]) then Some(Word("", s))
    else Prepend([s[0]], Scan(s[1..], mode))
  }

  function Prepend(text: string, w: Option<Word>): Option<Word> {
    if w.None? then None else Some(Word(text + w.value.text, w.value.rest))
  }

  /** Reads the delimiter word at `start`, with its end. */
  method DelimiterWord(line: string, start: nat) returns (r: Option<(string, nat)>)
    requires start <= |line|
    ensures var w := Scan(line[start..], Unquoted);
            r == if w.None? || w.value.text == "" then None else Some((w.value.text, |line| - |w.value.rest|))
    ensures r.Some? ==> start <= r.value.1 <= |line|
  {
    var out := "";
    var mode := Unquoted;
    var index := start;
    ghost var all := Scan(line[start..], Unquoted);
    PrependNothing(all);
    while index < |line|
      invariant start <= index <= |line|
      invariant all == Prepend(out, Scan(line[index..], mode))
    {
      var c := line[index];
      ScanStep(line, index, mode);
      if mode.InQuote? {
        if c == '\\' && mode.q == '"' && index + 1 < |line| {
          PrependTwice(out, [line[index + 1]], Scan(line[index + 2..], mode));
          out := out + [line[index + 1]];
          index := index + 2;
          continue;
        }
        if c == mode.q {
          mode := Unquoted;
          index := index + 1;
          continue;
        }
        PrependTwice(out, [c], Scan(line[index + 1..], mode));
        out := out + [c];
        index := index + 1;
        continue;
      }
      if c == '\'' || c == '"' {
        mode := InQuote(c);
        index := index + 1;
        continue;
      }
      if c == '\\' && index + 1 < |line| {
        PrependTwice(out, [line[index + 1]], Scan(line[index + 2..], mode));
        out := out + [line[index + 1]];
        index := index + 2;
        continue;
      }
      if Terminator(c) {
        break;
      }
      PrependTwice(out, [c], Scan(line[index + 1..], mode));
      out := out + [c];
      index := index + 1;
    }
    assert out + "" == out;
    assert index == |line| ==> line[index..] == "";
    assert mode.Unquoted? ==> Scan(line[index..], mode) == Some(Word("", line[index..]));
    if mode.InQuote? || out == "" {
      return None;
    }
    r := Some((out, index));
  }

  lemma ScanStep(line: string, index: nat, mode: Mode)
    requires index < |line|
    ensures line[index..][0] == line[index] && line[index..][1..] == line[index + 1..]
    ensures index + 1 < |line| ==> line[index..][1] == line[index + 1] && line[index..][2..] == line[index + 2..]
  {}

  lemma PrependTwice(a: string, b: string, w: Option<Word>)
    ensures Prepend(a, Prepend(b, w)) == Prepend(a + b, w)
  {
    if w.Some? { assert a + (b + w.value.text) == a + b + w.value.text; }
  }

  lemma PrependNothing(w: Option<Word>)
    ensures Prepend("", w) == w
  {
    if w.Some? { assert "" + w.value.text == w.value.text; }
  }

  // ----- every printed word is read back

  /** One step of the parser. */
  lemma ScanCons(c: char, t: string, mode: Mode)
    ensures Scan([c] + t, mode)
         == if mode.InQuote? then
              if c == '\\' && mode.q == '"' && t != "" then Prepend([t[0]], Scan(t[1..], mode))
              else if c == mode.q then Scan(t, Unquoted)
              else Prepend([c], Scan(t, mode))
            else if c == '\'' || c == '"' then Scan(t, InQuote(c))
            else if c == '\\' && t != "" then Prepend([t[0]], Scan(t[1..], mode))
            else if Terminator(c) then Some(Word("", [c] + t))
            else Prepend([c], Scan(t, mode))
  {
    var s := [c] + t;
    assert s[1..] == t;
    if t != "" { assert s[2..] == t[1..]; }
  }

  lemma {:induction false} ScanSingle(body: string, rest: string)
    requires '\'' !in body
    ensures Scan(body + "'" + rest, InQuote('\'')) == Prepend(body, Scan(rest, Unquoted))
  {
    var s := body + "'" + rest;
    if body == "" {
      PrependNothing(Scan(rest, Unquoted));
      assert s[0] == '\'' && s[1..] == rest;
    } else {
      ScanSingle(body[1..], rest);
      assert s[1..] == body[1..] + "'" + rest;
      assert s[0] == body[0];
      assert body == [body[0]] + body[1..];
      PrependTwice([body[0]], body[1..], Scan(rest, Unquoted));
    }
  }

  lemma {:induction false} ScanDouble(parts: seq<Part>, rest: string)
    requires forall p :: p in parts ==> p.Raw? ==> p.c != '"' && p.c != '\\'
    ensures Scan(PrintParts(parts) + "\"" + rest, InQuote('"')) == Prepend(PartsText(parts), Scan(rest, Unquoted))
  {
    hide Scan;
    if parts == [] {
      PrependNothing(Scan(rest, Unquoted));
      assert PrintParts(parts) + "\"" + rest == ['"'] + rest;
      ScanCons('"', rest, InQuote('"'));
    } else {
      var p := parts[0];
      assert p in parts;
      ScanDouble(parts[1..], rest);
      var tail := PrintParts(parts[1..]) + "\"" + rest;
      match p {
        case Raw(c) =>
          assert PrintParts(parts) + "\"" + rest == [c] + tail;
          ScanCons(c, tail, InQuote('"'));
        case Esc(c) =>
          assert PrintParts(parts) + "\"" + rest == ['\\'] + ([c] + tail);
          assert ([c] + tail)[1..] == tail;
          ScanCons('\\', [c] + tail, InQuote('"'));
      }
      PrependTwice([p.c], PartsText(parts[1..]), Scan(rest, Unquoted));
    }
  }

  lemma ScanSeg(seg: Seg, rest: string)
    requires ValidSeg(seg, rest)
    ensures Scan(PrintSeg(seg) + rest, Unquoted) == Prepend(SegText(seg), Scan(rest, Unquoted))
  {
    hide Scan, PrintParts, PartsText;
    match seg {
      case Bare(c) =>
        ScanCons(c, rest, Unquoted);
      case Escaped(c) =>
        assert PrintSeg(seg) + rest == ['\\'] + ([c] + rest);
        assert ([c] + rest)[1..] == rest;
        ScanCons('\\', [c] + rest, Unquoted);
      case Single(body) =>
        assert PrintSeg(seg) + rest == ['\''] + (body + "'" + rest);
        ScanCons('\'', body + "'" + rest, Unquoted);
        ScanSingle(body, rest);
      case Double(parts) =>
        assert PrintSeg(seg) + rest == ['"'] + (PrintParts(parts) + "\"" + rest);
        ScanCons('"', PrintParts(parts) + "\"" + rest, Unquoted);
        ScanDouble(parts, rest);
    }
  }

  /** Any mix of segments followed by a terminator or the end of the line is read
      back as the text it stands for, up to exactly where the print ends. */
  lemma {:induction false} PrintedWordIsRead(segs: seq<Seg>, rest: string)
    requires Valid(segs, rest) && Ends(rest)
    ensures Scan(Print(segs) + rest, Unquoted) == Some(Word(Text(segs), rest))
  {
    if segs == [] {
      assert Print(segs) + rest == rest;
    } else {
      hide Scan, Terminator, ValidSeg, PrintSeg, SegText;
      PrintedWordIsRead(segs[1..], rest);
      var tail := Print(segs[1..]) + rest;
      assert Print(segs) + rest == PrintSeg(segs[0]) + tail;
      ScanSeg(segs[0], tail);
      PrependTwice(SegText(segs[0]), Text(segs[1..]), Some(Word("", rest)));
    }
  }

  // ----- every word read is a printed one

  /** A quoted span that closes: its print, and the text after the closing quote. */
  lemma {:induction false} OpenSingle(s: string) returns (body: string, rest: string)
    requires Scan(s, InQuote('\'')).Some?
    ensures s == body + "'" + rest && '\'' !in body && |rest| < |s|
    ensures Scan(s, InQuote('\'')) == Prepend(body, Scan(rest, Unquoted))
  {
    if s[0] == '\'' {
      body, rest := "", s[1..];
      PrependNothing(Scan(rest, Unquoted));
    } else {
      body, rest := OpenSingle(s[1..]);
      PrependTwice([s[0]], body, Scan(rest, Unquoted));
      body := [s[0]] + body;
      assert s == [s[0]] + s[1..];
    }
  }

  lemma {:induction false} OpenDouble(s: string) returns (parts: seq<Part>, rest: string)
    requires Scan(s, InQuote('"')).Some?
    ensures s == PrintParts(parts) + "\"" + rest && |rest| < |s|
    ensures forall p :: p in parts ==> p.Raw? ==> p.c != '"' && p.c != '\\'
    ensures Scan(s, InQuote('"')) == Prepend(PartsText(parts), Scan(rest, Unquoted))
    decreases |s|
  {
    if s[0] == '"' {
      parts, rest := [], s[1..];
      PrependNothing(Scan(rest, Unquoted));
    } else {
      var p: Part;
      var tail: seq<Part>;
      if s[0] == '\\' && |s| > 1 {
        p := Esc(s[1]);
        tail, rest := OpenDouble(s[2..]);
        assert s == ['\\', s[1]] + s[2..];
      } else {
        p := Raw(s[0]);
        tail, rest := OpenDouble(s[1..]);
        assert s == [s[0]] + s[1..];
      }
      parts := [p] + tail;
      assert parts[1..] == tail;
      PrependTwice([p.c], PartsText(tail), Scan(rest, Unquoted));
    }
  }

  /** The first segment of a word that does not end at once. */
  lemma FirstSeg(s: string) returns (seg: Seg, rest: string)
    requires Scan(s, Unquoted).Some? && !Ends(s)
    ensures s == PrintSeg(seg) + rest && |rest| < |s| && ValidSeg(seg, rest)
    ensures Scan(s, Unquoted) == Prepend(SegText(seg), Scan(rest, Unquoted))
  {
    if s[0] == '\'' {
      var body;
      body, rest := OpenSingle(s[1..]);
      seg := Single(body);
    } else if s[0] == '"' {
      var parts;
      parts, rest := OpenDouble(s[1..]);
      seg := Double(parts);
    } else if s[0] == '\\' && |s| > 1 {
      seg, rest := Escaped(s[1]), s[2..];
    } else {
      seg, rest := Bare(s[0]), s[1..];
    }
  }

  lemma {:induction false} ReadWordIsPrinted(s: string) returns (segs: seq<Seg>)
    requires Scan(s, Unquoted).Some?
    ensures var w := Scan(s, Unquoted).value;
            s == Print(segs) + w.rest && Text(segs) == w.text && Valid(segs, w.rest) && Ends(w.rest)
    decreases |s|
  {
    hide Scan, Print, Text, Valid, ValidSeg, PrintSeg, SegText, Ends;
    if Ends(s) {
      segs := [];
      NoSegs(s);
    } else {
      var seg, rest := FirstSeg(s);
      var tail := ReadWordIsPrinted(rest);
      segs := [seg] + tail;
      ConsSeg(seg, tail, Scan(rest, Unquoted).value.rest);
    }
  }

  lemma NoSegs(s: string)
    requires Scan(s, Unquoted).Some? && Ends(s)
    ensures Scan(s, Unquoted).value == Word("", s)
    ensures s == Print([]) + s && Text([]) == "" && Valid([], s)
  {}

  lemma ConsSeg(seg: Seg, tail: seq<Seg>, rest: string)
    ensures Print([seg] + tail) + rest == PrintSeg(seg) + (Print(tail) + rest)
    ensures Text([seg] + tail) == SegText(seg) + Text(tail)
    ensures Valid([seg] + tail, rest) <==> ValidSeg(seg, Print(tail) + rest) && Valid(tail, rest)
  {
    assert ([seg] + tail)[1..] == tail;
    assert PrintSeg(seg) + (Print(tail) + rest) == PrintSeg(seg) + Print(tail) + rest;
  }

  // ----- the opener

  /** `str.count`: matches from the left, not overlapping. */
  function Count(s: string, pattern: string): nat
    requires pattern != ""
    decreases |s|
  {
    if |s| < |pattern| then 0
    else if s[..|pattern|] == pattern then 1 + Count(s[|pattern|..], pattern)
    else Count(s[1..], pattern)
  }

  predicate InsideArithmetic(line: string, index: nat)
    requires index <= |line|
  {
    var before := line[..index];
    Count(before, "$((") > Count(before, "))") || Count(before, "((") > Count(before, "))")
  }

  /** Places of a pattern in a text, no two of them overlapping. */
  ghost predicate Places(s: string, pattern: string, places: seq<nat>) {
    && (forall i :: 0 <= i < |places| ==>
          places[i] + |pattern| <= |s| && s[places[i]..places[i] + |pattern|] == pattern)
    && (forall i, j :: 0 <= i < j < |places| ==> places[i] + |pattern| <= places[j])
  }

  /** More openings of arithmetic than closings fit before `index`. */
  ghost predicate Opens(before: string) {
    exists lefts :: Places(before, "((", lefts) && forall rights :: Places(before, "))", rights) ==> |rights| < |lefts|
  }

  function Mark(strip: bool): string {
    if strip then "<<-" else "<<"
  }

  /** The line shows, from `index`: `<<`, perhaps `-`, blanks, the printed word.
      Right after a plain `<<` the word must not begin with a bare `-`, which
      would be read as the strip flag. */
  ghost predicate Shows(line: string, index: nat, strip: bool, blanks: string, segs: seq<Seg>, rest: string) {
    && index <= |line|
    && line[index..] == Mark(strip) + blanks + Print(segs) + rest
    && (forall c :: c in blanks ==> c == ' ' || c == '\t')
    && Valid(segs, rest) && Ends(rest) && Text(segs) != ""
    && (!strip && blanks == "" ==> segs[0] != Bare('-'))
  }

  ghost predicate ShowsWord(line: string, index: nat, strip: bool, text: string, rest: string) {
    exists blanks, segs :: Shows(line, index, strip, blanks, segs, rest) && Text(segs) == text
  }

  /** A `<<` that opens a heredoc, its delimiter, strip flag and end: exactly what
      some printed opener outside arithmetic shows. */
  method ParseOpener(line: string, index: nat) returns (r: Option<Opener>)
    ensures r.Some? ==> r.value.end <= |line| && index <= |line| && !Opens(line[..index])
                        && ShowsWord(line, index, r.value.stripTabs, r.value.delimiter, line[r.value.end..])
    ensures forall strip, blanks, segs, rest ::
              Shows(line, index, strip, blanks, segs, rest) && !Opens(line[..index])
              ==> r == Some(Opener(Text(segs), strip, |line| - |rest|))
  {
    hide Scan, Print, Text, Valid, Count, Terminator, InsideArithmetic, Opens, Shows;
    if !(index + 2 <= |line| && line[index] == '<' && line[index + 1] == '<') {
      forall strip, blanks, segs, rest | Shows(line, index, strip, blanks, segs, rest) ensures false {
        ShownStart(line, index, strip, blanks, segs, rest);
      }
      return None;
    }
    var end := index + 2;
    if end < |line| && line[end] == '<' {
      forall strip, blanks, segs, rest | Shows(line, index, strip, blanks, segs, rest) ensures false {
        ShownStart(line, index, strip, blanks, segs, rest);
      }
      return None;
    }
    var stripTabs := false;
    if end < |line| && line[end] == '-' {
      stripTabs := true;
      end := end + 1;
    }
    ghost var from := end;
    while end < |line| && (line[end] == ' ' || line[end] == '\t')
      invariant from <= end <= |line|
      invariant forall i :: from <= i < end ==> line[i] == ' ' || line[i] == '\t'
    {
      end := end + 1;
    }
    forall strip, blanks, segs, rest | Shows(line, index, strip, blanks, segs, rest)
      ensures strip == stripTabs && line[end..] == Print(segs) + rest
    {
      ShownStart(line, index, strip, blanks, segs, rest);
      ShownWord(line, index, strip, blanks, segs, rest, end);
    }
    ArithmeticIsOpened(line, index);
    if end >= |line| || InsideArithmetic(line, index) {
      forall strip, blanks, segs, rest | Shows(line, index, strip, blanks, segs, rest) ensures end < |line| {
        WordNotEmpty(segs, rest, strip, blanks, line, index);
      }
      return None;
    }
    var word := DelimiterWord(line, end);
    forall strip, blanks, segs, rest | Shows(line, index, strip, blanks, segs, rest)
      ensures word == Some((Text(segs), |line| - |rest|))
    {
      ShownParts(line, index, strip, blanks, segs, rest);
      PrintedWordIsRead(segs, rest);
    }
    if word.None? {
      return None;
    }
    OpenerIsShown(line, index, stripTabs, from, end);
    r := Some(Opener(word.value.0, stripTabs, word.value.1));
  }

  lemma PrintStart(segs: seq<Seg>, rest: string)
    requires Valid(segs, rest) && Text(segs) != ""
    ensures segs != [] && Print(segs) != "" && !Terminator(Print(segs)[0])
    ensures Print(segs)[0] == '-' <==> segs[0] == Bare('-')
  {
    assert segs != [];
  }

  lemma ShownParts(line: string, index: nat, strip: bool, blanks: string, segs: seq<Seg>, rest: string)
    requires Shows(line, index, strip, blanks, segs, rest)
    ensures Valid(segs, rest) && Ends(rest) && Text(segs) != ""
  {}

  lemma WordNotEmpty(segs: seq<Seg>, rest: string, strip: bool, blanks: string, line: string, index: nat)
    requires Shows(line, index, strip, blanks, segs, rest)
    ensures Print(segs) != ""
  {
    PrintStart(segs, rest);
  }

  lemma ShownStart(line: string, index: nat, strip: bool, blanks: string, segs: seq<Seg>, rest: string)
    requires Shows(line, index, strip, blanks, segs, rest)
    ensures index + 3 <= |line| && line[index] == '<' && line[index + 1] == '<' && line[index + 2] != '<'
    ensures strip <==> line[index + 2] == '-'
  {
    hide Print, Text, Valid;
    PrintStart(segs, rest);
    var s := line[index..];
    var word := Print(segs);
    assert line[index] == s[0] && line[index + 1] == s[1] && line[index + 2] == s[2];
    if !strip {
      assert s == "<<" + (blanks + word + rest);
      if blanks == "" { assert s[2] == word[0]; } else { assert s[2] == blanks[0]; assert blanks[0] in blanks; }
    }
  }

  lemma ShownWord(line: string, index: nat, strip: bool, blanks: string, segs: seq<Seg>, rest: string, end: nat)
    requires Shows(line, index, strip, blanks, segs, rest)
    requires var from := index + 2 + if strip then 1 else 0;
             && from <= end <= |line|
             && (forall i :: from <= i < end ==> line[i] == ' ' || line[i] == '\t')
             && (end < |line| ==> line[end] != ' ' && line[end] != '\t')
    ensures line[end..] == Print(segs) + rest
  {
    hide Print, Text, Valid;
    PrintStart(segs, rest);
    var from := index + 2 + if strip then 1 else 0;
    var tail := Print(segs) + rest;
    var s := line[index..];
    assert line[from..] == s[from - index..] == blanks + tail;
    var e := from + |blanks|;
    assert line[e..] == tail;
    assert e < |line| && line[e] == tail[0] == Print(segs)[0];
    assert line[e] != ' ' && line[e] != '\t';
    assert forall i :: from <= i < e ==>
        line[i] == line[from..][i - from] == blanks[i - from] && blanks[i - from] in blanks;
  }

  lemma OpenerIsShown(line: string, index: nat, strip: bool, from: nat, end: nat)
    requires index + 2 <= |line| && line[index] == '<' && line[index + 1] == '<'
    requires index + 2 < |line| ==> line[index + 2] != '<'
    requires strip <==> index + 2 < |line| && line[index + 2] == '-'
    requires from == index + 2 + (if strip then 1 else 0) && from <= end < |line|
    requires forall i :: from <= i < end ==> line[i] == ' ' || line[i] == '\t'
    requires Scan(line[end..], Unquoted).Some? && Scan(line[end..], Unquoted).value.text != ""
    ensures var w := Scan(line[end..], Unquoted).value;
            && |w.rest| <= |line|
            && ShowsWord(line, index, strip, w.text, line[|line| - |w.rest|..])
  {
    hide Scan, Print, Valid, Ends, Mark, InsideArithmetic;
    var w := Scan(line[end..], Unquoted).value;
    var segs := ReadWordIsPrinted(line[end..]);
    var blanks := line[from..end];
    PrintStart(segs, w.rest);
    SuffixAt(line, end, Print(segs), w.rest);
    OpenerSplit(line, index, strip, from, end);
    var head := Mark(strip) + blanks;
    assert head + (Print(segs) + w.rest) == head + Print(segs) + w.rest;
    assert forall c :: c in blanks ==> c == ' ' || c == '\t';
    assert line[end] == line[end..][0] == Print(segs)[0];
    assert Shows(line, index, strip, blanks, segs, line[|line| - |w.rest|..]) && Text(segs) == w.text;
  }

  lemma SuffixAt(line: string, end: nat, word: string, rest: string)
    requires end <= |line| && line[end..] == word + rest
    ensures |rest| <= |line| && line[|line| - |rest|..] == rest
  {
    assert line[|line| - |rest|..] == line[end..][|word|..];
  }

  lemma OpenerSplit(line: string, index: nat, strip: bool, from: nat, end: nat)
    requires index + 2 <= |line| && line[index] == '<' && line[index + 1] == '<'
    requires strip ==> index + 2 < |line| && line[index + 2] == '-'
    requires from == index + 2 + (if strip then 1 else 0) && from <= end < |line|
    ensures line[index..] == Mark(strip) + line[from..end] + line[end..]
  {
    assert line[index..from] == Mark(strip);
    assert line[index..] == line[index..from] + line[from..end] + line[end..];
  }

  // ----- the arithmetic test

  function Shifted(places: seq<nat>, away: nat): (r: seq<nat>)
    ensures |r| == |places| && forall i :: 0 <= i < |places| ==> r[i] == places[i] + away
  {
    seq(|places|, i requires 0 <= i < |places| => places[i] + away)
  }

  /** Places behind the first `away` characters, seen from there. */
  function Back(places: seq<nat>, away: nat): (r: seq<nat>)
    requires forall i :: 0 <= i < |places| ==> away <= places[i]
    ensures |r| == |places| && forall i :: 0 <= i < |places| ==> r[i] == places[i] - away
  {
    seq(|places|, i requires 0 <= i < |places| => places[i] - away)
  }

  lemma PlacesBack(s: string, pattern: string, places: seq<nat>, away: nat)
    requires away <= |s| && Places(s, pattern, places) && forall i :: 0 <= i < |places| ==> away <= places[i]
    ensures Places(s[away..], pattern, Back(places, away))
  {
    var back := Back(places, away);
    forall i | 0 <= i < |back| ensures s[away..][back[i]..back[i] + |pattern|] == pattern {
      assert s[away..][back[i]..back[i] + |pattern|] == s[places[i]..places[i] + |pattern|];
    }
  }

  lemma PlacesShifted(s: string, pattern: string, places: seq<nat>, away: nat)
    requires away <= |s| && Places(s[away..], pattern, places)
    ensures Places(s, pattern, Shifted(places, away))
  {
    var there := Shifted(places, away);
    forall i | 0 <= i < |there| ensures s[there[i]..there[i] + |pattern|] == pattern {
      assert s[away..][places[i]..places[i] + |pattern|] == s[there[i]..there[i] + |pattern|];
    }
  }

  lemma PlaceAtStart(s: string, pattern: string, places: seq<nat>)
    requires Places(s, pattern, places) && places != [] && places[0] == 0
    ensures |pattern| <= |s| && s[..|pattern|] == pattern
  {
    assert s[places[0]..places[0] + |pattern|] == s[..|pattern|];
  }

  /** No more places fit than are counted: the leftmost choice is the best one. */
  lemma {:induction false} CountIsMost(s: string, pattern: string, places: seq<nat>)
    requires pattern != "" && Places(s, pattern, places)
    ensures |places| <= Count(s, pattern)
    decreases |s|
  {
    if places != [] {
      assert places[0] + |pattern| <= |s|;
      if s[..|pattern|] == pattern {
        var tail := places[1..];
        forall i | 0 <= i < |tail| ensures |pattern| <= tail[i] == places[i + 1] {
          assert places[0] + |pattern| <= places[i + 1];
        }
        PlacesBack(s, pattern, tail, |pattern|);
        CountIsMost(s[|pattern|..], pattern, Back(tail, |pattern|));
      } else {
        if places[0] == 0 { PlaceAtStart(s, pattern, places); }
        PlacesBack(s, pattern, places, 1);
        CountIsMost(s[1..], pattern, Back(places, 1));
      }
    }
  }

  /** As many places as are counted do fit. */
  lemma {:induction false} CountIsReached(s: string, pattern: string) returns (places: seq<nat>)
    requires pattern != ""
    ensures Places(s, pattern, places) && |places| == Count(s, pattern)
    decreases |s|
  {
    if |s| < |pattern| {
      places := [];
    } else if s[..|pattern|] == pattern {
      var tail := CountIsReached(s[|pattern|..], pattern);
      PlacesShifted(s, pattern, tail, |pattern|);
      places := [0] + Shifted(tail, |pattern|);
      assert s[0..0 + |pattern|] == pattern;
    } else {
      var tail := CountIsReached(s[1..], pattern);
      PlacesShifted(s, pattern, tail, 1);
      places := Shifted(tail, 1);
    }
  }

  /** The refusal, told away the places of the parentheses: more openings fit than
      closings. */
  lemma ArithmeticIsOpened(line: string, index: nat)
    requires index <= |line|
    ensures InsideArithmetic(line, index) <==> Opens(line[..index])
  {
    hide Count, InsideArithmetic, Places;
    var before := line[..index];
    ArithmeticTestIsParenCount(line, index);
    var lefts := CountIsReached(before, "((");
    var rights := CountIsReached(before, "))");
    if Opens(before) {
      var most :| Places(before, "((", most) && forall rights :: Places(before, "))", rights) ==> |rights| < |most|;
      CountIsMost(before, "((", most);
    }
    forall other | Places(before, "))", other) ensures |other| <= |rights| { CountIsMost(before, "))", other); }
  }

  /** Every `$((` holds a `((`, so the first half of the test adds nothing: the
      opener is refused exactly when more `((` than `))` come before it. */
  lemma ArithmeticTestIsParenCount(line: string, index: nat)
    requires index <= |line|
    ensures InsideArithmetic(line, index) <==> Count(line[..index], "((") > Count(line[..index], "))")
  {
    DollarHoldsParens(line[..index]);
  }

  lemma {:induction false} DollarHoldsParens(s: string)
    ensures Count(s, "$((") <= Count(s, "((")
    decreases |s|
  {
    if |s| >= 3 {
      if s[..3] == "$((" {
        DollarHoldsParens(s[3..]);
        assert s[0] == s[..3][0] && s[1] == s[..3][1] && s[2] == s[..3][2];
        assert s[..2][0] == '$';
        assert s[1..][..2] == "((";
        assert s[1..][2..] == s[3..];
      } else if s[..2] == "((" {
        DollarHoldsParens(s[2..]);
        assert s[0] == s[..2][0] && s[1] == s[..2][1];
        assert s[1..][0] == '(';
        if |s| >= 4 { assert s[1..][..3][0] == '('; }
        assert Count(s, "$((") == Count(s[1..], "$((");
        assert s[1..][1..] == s[2..];
        assert Count(s[1..], "$((") == Count(s[2..], "$((");
      } else {
        DollarHoldsParens(s[1..]);
      }
    }
  }
}
