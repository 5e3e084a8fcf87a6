/** Does the `(` of an array declaration close? A flag machine walks the text once
    with a depth, a quote, a comment and a word-boundary flag; the grammar it
    implements nests groups and skips quoted spans and comments. */
module ArrayScanner {

  // ----- the grammar

  /** A `#` after one of these starts a comment: the ASCII code points that are white
      space (tab to carriage return, the four separators, the blank), and four signs. */
  predicate StartsWord(c: char) {
    c as int in {9, 10, 11, 12, 13, 28, 29, 30, 31, 32} || c == ';' || c == '|' || c == '&' || c == '('
  }

  /** The inside of a group. A comment's body runs to its newline; a backslash is
      an ordinary character. */
  datatype Items =
    | Nil
    | Plain(c: char, rest: Items)
    | Quoted(q: char, body: string, rest: Items)
    | Comment(body: string, rest: Items)
    | Group(inner: Items, rest: Items)

  function Print(x: Items): string {
    match x
    case Nil => ""
    case Plain(c, rest) => [c] + Print(rest)
    case Quoted(q, body, rest) => [q] + body + [q] + Print(rest)
    case Comment(body, rest) => "#" + body + "\n" + Print(rest)
    case Group(inner, rest) => "(" + Print(inner) + ")" + Print(rest)
  }

  /** `boundary`: a `#` here would start a comment. */
  predicate WellFormed(x: Items, boundary: bool) {
    match x
    case Nil => true
    case Plain(c, rest) =>
      c != '\'' && c != '"' && c != '(' && c != ')' && !(c == '#' && boundary) && WellFormed(rest, StartsWord(c))
    case Quoted(q, body, rest) => (q == '\'' || q == '"') && q !in body && WellFormed(rest, false)
    case Comment(body, rest) => boundary && '\n' !in body && WellFormed(rest, true)
    case Group(inner, rest) => WellFormed(inner, true) && WellFormed(rest, false)
  }

  /** `text` starts with a balanced group. */
  ghost predicate StartsWithGroup(text: string) {
    exists x :: WellFormed(x, true) && "(" + Print(x) + ")" <= text
  }

  // ----- the machine

  /** ASCII white space, as `str.isspace` has it. */
  predicate IsSpace(c: char) {
    c in " \t\n\r" || 0x0b <= c as int <= 0x0c || 0x1c <= c as int <= 0x1f
  }

  predicate Boundary(c: char) {
    IsSpace(c) || c in ";|&("
  }

  lemma BoundaryStartsWord(c: char)
    ensures Boundary(c) <==> StartsWord(c)
  {}

  datatype Mode = Code(boundary: bool) | InQuote(q: char) | InComment

  /** The machine on the text from here on: whether depth zero is reached at a `)`. */
  function Run(s: string, depth: int, mode: Mode): bool {
    if s == "" then false
    else match mode
      case InComment => Run(s[1..], depth, if s[0] == '\n' then Code(true) else InComment)
      case InQuote(q) => Run(s[1..], depth, if s[0] == q then Code(false) else mode)
      case Code(boundary) =>
        if s[0] == '\'' || s[0] == '"' then Run(s[1..], depth, InQuote(s[0]))
        else if s[0] == '#' && boundary then Run(s[1..], depth, InComment)
        else if s[0] == '(' then Run(s[1..], depth + 1, Code(true))
        else if s[0] == ')' then depth == 1 || Run(s[1..], depth - 1, Code(false))
        else Run(s[1..], depth, Code(Boundary(s[0])))
  }

  /** Is the `(` at `start` balanced by a later `)`? Exactly when the text from
      there starts with a group of the grammar. */
  method ArrayCloses(text: string, start: nat) returns (closes: bool)
    ensures closes <==> start < |text| && Run(text[start..], 0, Code(true))
    ensures start < |text| && text[start] == '(' ==> (closes <==> StartsWithGroup(text[start..]))
  {
    if start < |text| && text[start] == '(' {
      assert text[start..] == "(" + text[start + 1..];
      RunIsGrammar(text[start + 1..]);
    }
    var depth := 0;
    var quote: string, comment, boundary := "", false, true;
    ghost var all := if start <= |text| then Run(text[start..], 0, Code(true)) else false;
    var i := start;
    while i < |text|
      invariant start <= i && (start <= |text| ==> i <= |text|)
      invariant |quote| <= 1 && !(quote != "" && (comment || boundary))
      invariant i <= |text| ==> all == Run(text[i..], depth, ModeOf(quote, comment, boundary))
    {
      var ch := text[i];
      assert text[i..][0] == ch && text[i..][1..] == text[i + 1..];
      i := i + 1;
      if comment {
        if ch == '\n' {
          comment := false;
          boundary := true;
        }
        continue;
      }
      if quote != "" {
        if ch == quote[0] {
          quote := "";
        }
        continue;
      }
      if ch == '\'' || ch == '"' {
        quote := [ch];
      } else if ch == '#' && boundary {
        comment := true;
      } else if ch == '(' {
        depth := depth + 1;
      } else if ch == ')' {
        depth := depth - 1;
        if depth == 0 {
          return true;
        }
      }
      boundary := Boundary(ch);
    }
    return false;
  }

  function ModeOf(quote: string, comment: bool, boundary: bool): Mode
    requires |quote| <= 1
  {
    if comment then InComment else if quote != "" then InQuote(quote[0]) else Code(boundary)
  }

  // ----- the machine accepts every printed group

  lemma {:induction false} RunQuoted(body: string, q: char, rest: string, depth: int)
    requires q !in body
    ensures Run(body + [q] + rest, depth, InQuote(q)) == Run(rest, depth, Code(false))
  {
    var s := body + [q] + rest;
    if body == "" {
      assert s[1..] == rest;
    } else {
      RunQuoted(body[1..], q, rest, depth);
      assert s[1..] == body[1..] + [q] + rest;
      assert body == [body[0]] + body[1..];
    }
  }

  lemma {:induction false} RunComment(body: string, rest: string, depth: int)
    requires '\n' !in body
    ensures Run(body + "\n" + rest, depth, InComment) == Run(rest, depth, Code(true))
  {
    var s := body + "\n" + rest;
    if body == "" {
      assert s[1..] == rest;
    } else {
      RunComment(body[1..], rest, depth);
      assert s[1..] == body[1..] + "\n" + rest;
      assert body == [body[0]] + body[1..];
    }
  }

  /** Parentheses inside a quoted span or a comment do not matter: whatever the
      span holds, the machine goes on behind it at the same depth. */
  lemma SpansAreSkipped(q: char, quoted: string, comment: string, rest: string, depth: int, boundary: bool)
    requires q == '\'' || q == '"'
    requires q !in quoted && '\n' !in comment
    ensures Run([q] + quoted + [q] + rest, depth, Code(boundary)) == Run(rest, depth, Code(false))
    ensures Run("#" + comment + "\n" + rest, depth, Code(true)) == Run(rest, depth, Code(true))
  {
    hide Run;
    RunQuoted(quoted, q, rest, depth);
    RunCons(q, quoted + [q] + rest, depth, boundary);
    assert [q] + (quoted + [q] + rest) == [q] + quoted + [q] + rest;
    RunComment(comment, rest, depth);
    RunCons('#', comment + "\n" + rest, depth, true);
    assert ['#'] + (comment + "\n" + rest) == "#" + comment + "\n" + rest;
  }

  /** One step of the machine outside quotes and comments. */
  lemma RunCons(c: char, t: string, depth: int, boundary: bool)
    ensures Run([c] + t, depth, Code(boundary))
         == if c == '\'' || c == '"' then Run(t, depth, InQuote(c))
            else if c == '#' && boundary then Run(t, depth, InComment)
            else if c == '(' then Run(t, depth + 1, Code(true))
            else if c == ')' then depth == 1 || Run(t, depth - 1, Code(false))
            else Run(t, depth, Code(Boundary(c)))
  {
    assert ([c] + t)[1..] == t;
  }

  /** Well-formed items leave the depth as it was, up to the `)` after them. */
  lemma {:induction false} RunItems(x: Items, boundary: bool, rest: string, depth: int)
    requires WellFormed(x, boundary) && depth >= 1
    ensures Run(Print(x) + ")" + rest, depth, Code(boundary)) <==> depth == 1 || Run(rest, depth - 1, Code(false))
  {
    hide Run, Boundary, StartsWord;
    match x {
      case Nil =>
        assert Print(x) + ")" + rest == [')'] + rest;
        RunCons(')', rest, depth, boundary);
      case Plain(c, tail) =>
        Assemble([c], tail, rest);
        RunCons(c, Print(tail) + ")" + rest, depth, boundary);
        BoundaryStartsWord(c);
        RunItems(tail, Boundary(c), rest, depth);
      case Quoted(q, body, tail) =>
        Assemble([q] + body + [q], tail, rest);
        SpansAreSkipped(q, body, "", Print(tail) + ")" + rest, depth, boundary);
        RunItems(tail, false, rest, depth);
      case Comment(body, tail) =>
        Assemble("#" + body + "\n", tail, rest);
        SpansAreSkipped('"', "", body, Print(tail) + ")" + rest, depth, true);
        RunItems(tail, true, rest, depth);
      case Group(inner, tail) =>
        var t := Print(tail) + ")" + rest;
        Assemble("(" + Print(inner) + ")", tail, rest);
        assert "(" + Print(inner) + ")" + t == ['('] + (Print(inner) + ")" + t);
        RunCons('(', Print(inner) + ")" + t, depth, boundary);
        RunItems(inner, true, t, depth + 1);
        RunItems(tail, false, rest, depth);
    }
  }

  lemma Assemble(first: string, tail: Items, rest: string)
    ensures first + Print(tail) + ")" + rest == first + (Print(tail) + ")" + rest)
  {
    hide Print;
  }

  // ----- whatever the machine accepts is a printed group

  /** Inside a quote an accepting run passes the closing quote. */
  lemma {:induction false} QuoteCloses(s: string, q: char, depth: int) returns (body: string, rest: string)
    requires Run(s, depth, InQuote(q))
    ensures s == body + [q] + rest && q !in body && |rest| < |s|
    ensures Run(rest, depth, Code(false))
  {
    if s[0] == q {
      body, rest := "", s[1..];
    } else {
      body, rest := QuoteCloses(s[1..], q, depth);
      body := [s[0]] + body;
    }
  }

  lemma {:induction false} CommentCloses(s: string, depth: int) returns (body: string, rest: string)
    requires Run(s, depth, InComment)
    ensures s == body + "\n" + rest && '\n' !in body && |rest| < |s|
    ensures Run(rest, depth, Code(true))
  {
    if s[0] == '\n' {
      body, rest := "", s[1..];
    } else {
      body, rest := CommentCloses(s[1..], depth);
      body := [s[0]] + body;
    }
  }

  /** How the last step of a derivation prints, and when it is well formed. */
  lemma PrintSpan(x: Items, rest: string)
    ensures x.Nil? ==> Print(x) + ")" + rest == [')'] + rest && forall b :: WellFormed(x, b)
    ensures x.Plain? ==> Print(x) + ")" + rest == [x.c] + (Print(x.rest) + ")" + rest)
    ensures x.Quoted? ==> Print(x) + ")" + rest == [x.q] + (x.body + [x.q] + (Print(x.rest) + ")" + rest))
    ensures x.Comment? ==> Print(x) + ")" + rest == ['#'] + (x.body + "\n" + (Print(x.rest) + ")" + rest))
    ensures x.Plain? && x.c !in "'\"()" && WellFormed(x.rest, Boundary(x.c)) ==>
              forall b :: !(b && x.c == '#') ==> WellFormed(x, b)
    ensures x.Quoted? && x.q in "'\"" && x.q !in x.body && WellFormed(x.rest, false) ==> forall b :: WellFormed(x, b)
    ensures x.Comment? && '\n' !in x.body && WellFormed(x.rest, true) ==> WellFormed(x, true)
  {
    hide Boundary, StartsWord;
    if x.Plain? { BoundaryStartsWord(x.c); }
    match x {
      case Nil =>
      case Plain(c, tail) => Assemble([c], tail, rest);
      case Quoted(q, body, tail) =>
        Assemble([q] + body + [q], tail, rest);
        assert [q] + (body + [q] + (Print(tail) + ")" + rest)) == [q] + body + [q] + (Print(tail) + ")" + rest);
      case Comment(body, tail) =>
        Assemble("#" + body + "\n", tail, rest);
        assert ['#'] + (body + "\n" + (Print(tail) + ")" + rest)) == "#" + body + "\n" + (Print(tail) + ")" + rest);
      case Group(_, _) =>
    }
  }

  lemma PrintGroup(inner: Items, tail: Items, t: string, rest: string)
    requires t == Print(tail) + ")" + rest
    ensures Print(Group(inner, tail)) + ")" + rest == ['('] + (Print(inner) + ")" + t)
    ensures WellFormed(inner, true) && WellFormed(tail, false) ==> forall b :: WellFormed(Group(inner, tail), b)
  {
    Assemble("(" + Print(inner) + ")", tail, rest);
    assert "(" + Print(inner) + ")" + t == ['('] + (Print(inner) + ")" + t);
  }

  lemma NotEmpty(depth: int, mode: Mode)
    ensures !Run("", depth, mode)
  {}

  /** An accepting run at depth `depth` reads well-formed items and their `)`; one
      level up it goes on to accept behind them. */
  lemma {:induction false} AcceptedIsPrinted(s: string, depth: int, boundary: bool) returns (x: Items, rest: string)
    requires depth >= 1 && Run(s, depth, Code(boundary))
    ensures WellFormed(x, boundary) && s == Print(x) + ")" + rest && |rest| < |s|
    ensures depth > 1 ==> Run(rest, depth - 1, Code(false))
    decreases |s|
  {
    hide Run, Boundary, Print, WellFormed;
    NotEmpty(depth, Code(boundary));
    assert s == [s[0]] + s[1..];
    RunCons(s[0], s[1..], depth, boundary);
    if s[0] == '\'' || s[0] == '"' {
      var body, t := QuoteCloses(s[1..], s[0], depth);
      var tail;
      tail, rest := AcceptedIsPrinted(t, depth, false);
      x := Quoted(s[0], body, tail);
      PrintSpan(x, rest);
    } else if s[0] == '#' && boundary {
      var body, t := CommentCloses(s[1..], depth);
      var tail;
      tail, rest := AcceptedIsPrinted(t, depth, true);
      x := Comment(body, tail);
      PrintSpan(x, rest);
    } else if s[0] == '(' {
      var inner, t := AcceptedIsPrinted(s[1..], depth + 1, true);
      var tail;
      tail, rest := AcceptedIsPrinted(t, depth, false);
      x := Group(inner, tail);
      PrintGroup(inner, tail, t, rest);
    } else if s[0] == ')' {
      x, rest := Nil, s[1..];
      PrintSpan(x, rest);
    } else {
      var tail;
      tail, rest := AcceptedIsPrinted(s[1..], depth, Boundary(s[0]));
      x := Plain(s[0], tail);
      PrintSpan(x, rest);
    }
  }

  /** Machine and grammar agree on every text behind an opening `(`. */
  lemma RunIsGrammar(s: string)
    ensures Run("(" + s, 0, Code(true)) <==> StartsWithGroup("(" + s)
  {
    var text := "(" + s;
    assert text[1..] == s;
    assert Run(text, 0, Code(true)) == Run(s, 1, Code(true));
    if Run(s, 1, Code(true)) { AcceptedStartsGroup(s); }
    if StartsWithGroup(text) { GroupIsAccepted(s); }
  }

  lemma AcceptedStartsGroup(s: string)
    requires Run(s, 1, Code(true))
    ensures StartsWithGroup("(" + s)
  {
    hide Run, Print, WellFormed;
    var x, rest := AcceptedIsPrinted(s, 1, true);
    assert "(" + s == "(" + Print(x) + ")" + rest;
  }

  lemma GroupIsAccepted(s: string)
    requires StartsWithGroup("(" + s)
    ensures Run(s, 1, Code(true))
  {
    hide Run, Print, WellFormed;
    var x :| WellFormed(x, true) && "(" + Print(x) + ")" <= "(" + s;
    var text := "(" + s;
    var rest := text[|Print(x)| + 2..];
    assert text == "(" + Print(x) + ")" + rest;
    assert s == text[1..] == Print(x) + ")" + rest;
    RunItems(x, true, rest, 1);
  }

  /** Appending text never undoes a closing parenthesis. */
  lemma AppendKeepsGroup(text: string, more: string)
    requires StartsWithGroup(text)
    ensures StartsWithGroup(text + more)
  {
    var x :| WellFormed(x, true) && "(" + Print(x) + ")" <= text;
    assert "(" + Print(x) + ")" <= text + more;
  }

  // ----- the arrays a hunk may report

  datatype Position = NotDeclared | OpensAt(index: nat)

  /** `openers` gives, for each name, the `(` of its last declaration in `text`. An
      array is kept exactly when it has no declaration there or the last one
      starts a balanced group; kept arrays are unchanged. */
  method DropUnclosedArrays(arrays: map<string, seq<string>>, text: string, openers: string -> Position)
    returns (kept: map<string, seq<string>>)
    requires forall name :: name in arrays && openers(name).OpensAt? ==>
               openers(name).index < |text| && text[openers(name).index] == '('
    ensures forall name ::
              (name in kept <==>
                 name in arrays && (openers(name).OpensAt? ==> StartsWithGroup(text[openers(name).index..])))
    ensures forall name :: name in kept ==> kept[name] == arrays[name]
  {
    hide StartsWithGroup;
    kept := map[];
    var todo := arrays.Keys;
    while todo != {}
      invariant todo <= arrays.Keys
      invariant forall name ::
                  (name in kept <==> name in arrays && name !in todo
                                     && (openers(name).OpensAt? ==> StartsWithGroup(text[openers(name).index..])))
      invariant forall name :: name in kept ==> kept[name] == arrays[name]
      decreases |todo|
    {
      var name :| name in todo;
      todo := todo - {name};
      var lastOpen := openers(name);
      if lastOpen.OpensAt? {
        var closes := ArrayCloses(text, lastOpen.index);
        if !closes {
          continue;
        }
      }
      kept := kept[name := arrays[name]];
    }
  }
}
