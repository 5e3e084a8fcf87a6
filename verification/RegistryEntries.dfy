/** The registry entry the bootstrap makes of a section, with the entry an earlier
    registry has for it, and what is left of it when the bootstrap runs again on the
    section it has rewritten. */
module RegistryEntries {
  import opened Options
  import opened RegistryMeta
  import opened RegistryValues
  import opened SectionFiles

  /** Missing fields are none. */
  datatype Entry = Entry(uid: Option<string>, name: Option<string>, canonical: bool, severityText: Option<string>,
                         severity: Option<string>, capability: Option<string>, target: Option<string>)

  /** Python's `a or b`: an empty string counts as missing. */
  function Or(a: Option<string>, b: Option<string>): Option<string> {
    if a.Some? && a.value != "" then a else b
  }

  function Field(m: map<string, string>, key: string): Option<string> {
    if key in m then Some(m[key]) else None
  }

  function TrimLeft(s: string, p: char -> bool): string {
    if s != "" && p(s[0]) then TrimLeft(s[1..], p) else s
  }

  function TrimRight(s: string, p: char -> bool): string {
    if s != "" && p(s[|s| - 1]) then TrimRight(s[..|s| - 1], p) else s
  }

  function Trim(s: string, p: char -> bool): string {
    TrimRight(TrimLeft(s, p), p)
  }

  /** A category without its back quotes and the blanks around it. */
  function Capability(values: map<string, string>): Option<string> {
    if "Category" in values then Some(Trim(Trim(values["Category"], (c: char) => c == '`'), IsSpace)) else None
  }

  /** The registry committed before, the anchor that shows a uid first, and the
      severity a text names. */
  datatype Surroundings = Surroundings(previous: string -> Entry, canonical: string -> Option<string>,
                                       severityIn: string -> Option<string>)

  function AnchorOf(text: string, stem: string): string {
    var comments := Parsed(Lines(text)).comments;
    if "anchor" in comments then comments["anchor"] else stem
  }

  /** The entry of a section; a section without a uid is refused. */
  function EntryOf(text: string, stem: string, around: Surroundings): Option<Entry> {
    var s := Parsed(Lines(text));
    if "uid" !in s.comments || s.comments["uid"] == "" then None
    else
      var anchor := AnchorOf(text, stem);
      var prior := around.previous(anchor);
      var severityText := Field(s.values, "Severity");
      var searched := severityText.Some? && severityText.value != "";
      var found := if searched then around.severityIn(severityText.value) else None;
      Some(Entry(Some(s.comments["uid"]), Or(Field(s.comments, "name"), prior.name),
                 around.canonical(s.comments["uid"]) == Some(anchor),
                 Or(severityText, prior.severityText), if found.Some? then found else prior.severity,
                 Or(Capability(s.values), prior.capability), Or(Field(s.values, "Target"), prior.target)))
  }

  /** The display name the earlier registry has, "" for none. */
  function PriorName(around: Surroundings): string -> string {
    (anchor: string) => var name := around.previous(anchor).name; if name.Some? then name.value else ""
  }

  // ----- the fields, told from the lines

  /** `Trim` takes off what it is told to, at both ends, and nothing else. */
  lemma TrimMeaning(s: string, p: char -> bool) returns (before: string, after: string)
    ensures s == before + Trim(s, p) + after
    ensures (forall i :: 0 <= i < |before| ==> p(before[i])) && (forall i :: 0 <= i < |after| ==> p(after[i]))
    ensures Trim(s, p) != "" ==> !p(Trim(s, p)[0]) && !p(Trim(s, p)[|Trim(s, p)| - 1])
  {
    before := TrimmedLeft(s, p);
    after := TrimmedRight(TrimLeft(s, p), p);
  }

  lemma {:induction false} TrimmedLeft(s: string, p: char -> bool) returns (before: string)
    ensures s == before + TrimLeft(s, p) && forall i :: 0 <= i < |before| ==> p(before[i])
    ensures TrimLeft(s, p) != "" ==> !p(TrimLeft(s, p)[0])
  {
    if s != "" && p(s[0]) {
      before := TrimmedLeft(s[1..], p);
      before := [s[0]] + before;
    } else {
      before := "";
    }
  }

  lemma {:induction false} TrimmedRight(s: string, p: char -> bool) returns (after: string)
    ensures s == TrimRight(s, p) + after && forall i :: 0 <= i < |after| ==> p(after[i])
    ensures TrimRight(s, p) != "" ==> !p(TrimRight(s, p)[|TrimRight(s, p)| - 1])
  {
    if s != "" && p(s[|s| - 1]) {
      after := TrimmedRight(s[..|s| - 1], p);
      after := after + [s[|s| - 1]];
    } else {
      after := "";
    }
  }

  /** The field is the value that the section gives, or `other` when it gives none or
      an empty one. */
  ghost predicate GivenOr(field: Option<string>, gives: string -> bool, other: Option<string>) {
    && (forall v :: v != "" && gives(v) ==> field == Some(v))
    && ((forall v :: v != "" ==> !gives(v)) ==> field == other)
  }

  lemma FieldIsGiven(m: map<string, string>, key: string, gives: string -> bool, other: Option<string>)
    requires forall v :: gives(v) <==> key in m && m[key] == v
    ensures GivenOr(Or(Field(m, key), other), gives, other)
  {
    if key in m { assert gives(m[key]); }
  }

  /** A section without a uid comment, or with an empty one, is refused. */
  lemma RefusedIff(text: string, stem: string, around: Surroundings)
    ensures EntryOf(text, stem, around).None? <==> !exists v :: v != "" && CommentFits(Lines(text), "uid", v)
  {
    hide Lines, Parsed, CommentFits, Capability;
    var comments := Parsed(Lines(text)).comments;
    forall v ensures CommentFits(Lines(text), "uid", v) <==> "uid" in comments && comments["uid"] == v {
      CommentIs(Lines(text), "uid", v);
    }
    if "uid" in comments { assert CommentFits(Lines(text), "uid", comments["uid"]); }
  }

  lemma AnchorMeaning(text: string, stem: string)
    ensures forall v :: CommentFits(Lines(text), "anchor", v) ==> AnchorOf(text, stem) == v
    ensures (forall v :: !CommentFits(Lines(text), "anchor", v)) ==> AnchorOf(text, stem) == stem
  {
    hide Lines, Parsed, CommentFits;
    var comments := Parsed(Lines(text)).comments;
    forall v ensures CommentFits(Lines(text), "anchor", v) <==> "anchor" in comments && comments["anchor"] == v {
      CommentIs(Lines(text), "anchor", v);
    }
    if "anchor" in comments { assert CommentFits(Lines(text), "anchor", comments["anchor"]); }
  }

  /** The uid and the name are header comments; a missing name is the earlier one. */
  lemma EntryComments(text: string, stem: string, around: Surroundings)
    requires EntryOf(text, stem, around).Some?
    ensures var e, lines := EntryOf(text, stem, around).value, Lines(text);
            var prior := around.previous(AnchorOf(text, stem));
            && (exists v :: CommentFits(lines, "uid", v) && e.uid == Some(v)
                            && (e.canonical <==> around.canonical(v) == Some(AnchorOf(text, stem))))
            && GivenOr(e.name, (v: string) => CommentFits(lines, "name", v), prior.name)
  {
    hide Lines, Parsed, CommentFits, Capability, AnchorOf;
    var lines := Lines(text);
    var comments := Parsed(lines).comments;
    CommentIs(lines, "uid", comments["uid"]);
    forall v ensures CommentFits(lines, "name", v) <==> "name" in comments && comments["name"] == v {
      CommentIs(lines, "name", v);
    }
    hide GivenOr;
    FieldIsGiven(comments, "name", (v: string) => CommentFits(lines, "name", v),
                 around.previous(AnchorOf(text, stem)).name);
  }

  /** The other fields are the last bullets of their keys; an empty or missing one is
      the earlier value. The severity is the one that the section's own text names. */
  lemma EntryBullets(text: string, stem: string, around: Surroundings)
    requires EntryOf(text, stem, around).Some?
    ensures var e, lines := EntryOf(text, stem, around).value, Lines(text);
            var prior := around.previous(AnchorOf(text, stem));
            && GivenOr(e.target, (v: string) => ValueFits(lines, "Target", v), prior.target)
            && GivenOr(e.severityText, (v: string) => ValueFits(lines, "Severity", v), prior.severityText)
            && (forall v :: v != "" && ValueFits(lines, "Severity", v) && around.severityIn(v).Some? ==>
                  e.severity == around.severityIn(v))
            && ((forall v :: v != "" && ValueFits(lines, "Severity", v) ==> around.severityIn(v).None?) ==>
                  e.severity == prior.severity)
  {
    hide Lines, Parsed, ValueFits, Capability, AnchorOf;
    var lines := Lines(text);
    var values := Parsed(lines).values;
    forall v ensures ValueFits(lines, "Target", v) <==> "Target" in values && values["Target"] == v {
      ValueIs(lines, "Target", v);
    }
    forall v ensures ValueFits(lines, "Severity", v) <==> "Severity" in values && values["Severity"] == v {
      ValueIs(lines, "Severity", v);
    }
    if "Severity" in values { assert ValueFits(lines, "Severity", values["Severity"]); }
    var prior := around.previous(AnchorOf(text, stem));
    hide GivenOr;
    FieldIsGiven(values, "Target", (v: string) => ValueFits(lines, "Target", v), prior.target);
    FieldIsGiven(values, "Severity", (v: string) => ValueFits(lines, "Severity", v), prior.severityText);
  }

  /** The category loses its back quotes, then the blanks; the earlier one stands in. */
  lemma EntryCapability(text: string, stem: string, around: Surroundings)
    requires EntryOf(text, stem, around).Some?
    ensures var e, lines := EntryOf(text, stem, around).value, Lines(text);
            var prior := around.previous(AnchorOf(text, stem));
            GivenOr(e.capability,
                    (v: string) => exists raw ::
                      ValueFits(lines, "Category", raw) && v == Trim(Trim(raw, (c: char) => c == '`'), IsSpace),
                    prior.capability)
  {
    hide Lines, Parsed, ValueFits, AnchorOf, Trim;
    var lines := Lines(text);
    var values := Parsed(lines).values;
    forall v ensures ValueFits(lines, "Category", v) <==> "Category" in values && values["Category"] == v {
      ValueIs(lines, "Category", v);
    }
    var cleaned := if "Category" in values then
                     map["Category" := Trim(Trim(values["Category"], (c: char) => c == '`'), IsSpace)]
                   else map[];
    if "Category" in values { assert ValueFits(lines, "Category", values["Category"]); }
    FieldIsGiven(cleaned, "Category",
                 (v: string) => exists raw ::
                   ValueFits(lines, "Category", raw) && v == Trim(Trim(raw, (c: char) => c == '`'), IsSpace),
                 around.previous(AnchorOf(text, stem)).capability);
  }

  // ----- the second run

  lemma NoBulletsNoValues(lines: seq<string>)
    requires NoBullets(lines)
    ensures Parsed(lines).values == map[]
  {
    hide BulletOf, Parsed, ValueFits;
    CommentsAndValues(lines);
    var values := Parsed(lines).values;
    forall key | key in values ensures false {
      ValueHasBullet(lines, key, values[key]);
    }
  }

  lemma ValueHasBullet(lines: seq<string>, key: string, value: string)
    requires ValueFits(lines, key, value)
    ensures !NoBullets(lines)
  {
    hide BulletOf, JoinLines, RightTrim;
    var b: nat, end: nat :| b < |lines| && LastBullet(lines, key, b) && BlockEnds(lines, b, end);
    assert lines[b] in lines;
  }

  lemma RewrittenHasNoBullets(uid: string, anchor: string, name: string, prose: string)
    requires OneLine(uid) && OneLine(anchor) && OneLine(name) && NoBullets(Lines(prose))
    ensures NoBullets(Lines(RewrittenText(uid, anchor, name, prose)))
  {
    hide Lines, RewrittenText, Comment, BulletOf, Meta;
    RewrittenLines(uid, anchor, name, prose);
    LinesSnoc(prose);
    EmptyLine();
    MetaOfComment("uid", uid);
    MetaOfComment("anchor", anchor);
    MetaOfComment("name", name);
    Disjoint(Comment("uid", uid));
    Disjoint(Comment("anchor", anchor));
    Disjoint(Comment("name", name));
  }

  /** The parse of a rewritten section. */
  lemma RewrittenParse(text: string, stem: string, prior: string -> string)
    requires OneLine(stem) && forall a :: OneLine(prior(a))
    requires Rewritten(text, stem, prior).Some?
    ensures var s, t := Parsed(Lines(text)), Parsed(Lines(Rewritten(text, stem, prior).value));
            var anchor := AnchorOf(text, stem);
            var name := if "name" in s.comments && s.comments["name"] != "" then s.comments["name"] else prior(anchor);
            t.values == map[] && "uid" in s.comments && t.comments == CommentsOf(s.comments["uid"], anchor, name)
  {
    hide Lines, RewrittenText, Parsed, JoinLines, Strip, CommentsOf;
    var lines := Lines(text);
    var s := Parsed(lines);
    LinesAreSingle(text);
    ParsedComments(lines);
    ProseHasNoBullets(lines);
    var anchor := AnchorOf(text, stem);
    var name := if "name" in s.comments && s.comments["name"] != "" then s.comments["name"] else prior(anchor);
    var prose := if s.body == [] then "" else Strip(JoinLines(s.body));
    ParseRewritten(s.comments["uid"], anchor, name, prose);
    RewrittenHasNoBullets(s.comments["uid"], anchor, name, prose);
    NoBulletsNoValues(Lines(RewrittenText(s.comments["uid"], anchor, name, prose)));
  }

  /** The earlier entry holds all that the rewritten section no longer does: the three
      bullets and, for a rule without one, the name. */
  ghost predicate Remembers(prior: Entry, e: Entry) {
    && prior.severityText == e.severityText && prior.severity == e.severity
    && prior.capability == e.capability && prior.target == e.target
    && (Or(e.name, None) == None ==> prior.name == e.name)
  }

  /** Running the bootstrap again on the section it has rewritten keeps the registry
      entry exactly when the registry committed by then remembers it. */
  lemma SecondRunKeepsEntryIff(text: string, stem: string, first: Surroundings, second: Surroundings)
    requires OneLine(stem) && forall a :: OneLine(PriorName(first)(a))
    requires second.canonical == first.canonical
    requires EntryOf(text, stem, first).Some?
    ensures var e := EntryOf(text, stem, first).value;
            var again := Rewritten(text, stem, PriorName(first));
            && again.Some?
            && EntryOf(again.value, stem, second).Some?
            && (EntryOf(again.value, stem, second).value == e <==> Remembers(second.previous(AnchorOf(text, stem)), e))
  {
    hide Lines, Parsed, RewrittenText, Strip, JoinLines, Capability;
    RewrittenParse(text, stem, PriorName(first));
    assert Capability(map[]) == None by { NoCapability(); }
  }

  lemma NoCapability()
    ensures Capability(map[]) == None
  {}

  /** In particular when the first registry is committed before the second run. */
  lemma CommittedEntryIsKept(text: string, stem: string, first: Surroundings, second: Surroundings)
    requires OneLine(stem) && forall a :: OneLine(PriorName(first)(a))
    requires second.canonical == first.canonical
    requires EntryOf(text, stem, first).Some?
    requires second.previous(AnchorOf(text, stem)) == EntryOf(text, stem, first).value
    ensures EntryOf(Rewritten(text, stem, PriorName(first)).value, stem, second) == EntryOf(text, stem, first)
  {
    hide EntryOf, Rewritten, AnchorOf;
    SecondRunKeepsEntryIff(text, stem, first, second);
  }

  const NO_ENTRY := Entry(None, None, false, None, None, None, None)

  const NO_REGISTRY := Surroundings((anchor: string) => NO_ENTRY, (uid: string) => None, (text: string) => None)

  /** A section with a uid and a target. */
  function TargetSection(): string {
    Comment("uid", "u") + "\n" + (Bullet("Target") + "t")
  }

  lemma TargetSectionLines()
    ensures Lines(TargetSection()) == [Comment("uid", "u")] + [Bullet("Target") + "t"]
  {
    var bullet := Bullet("Target") + "t";
    CommentIsOneLine("uid", "u");
    hide Comment, Lines;
    LinesCons(Comment("uid", "u"), bullet);
    LinesOfOne(bullet);
  }

  lemma TargetBullet(s: State)
    ensures var t := ParseFrom(s, [Bullet("Target") + "t"]);
            t.comments == s.comments && t.values == s.values["Target" := "t"]
  {
    hide Bullet, BulletOf, Meta, JoinLines;
    BulletBlockIsOneValue(s, "Target", "t", [], []);
    assert [Bullet("Target") + "t"] + [] + [] == [Bullet("Target") + "t"];
    JoinOne("t");
    assert ["t"] + [] == ["t"];
  }

  lemma TargetSectionParse()
    ensures var s := Parsed(Lines(TargetSection())); s.comments == map["uid" := "u"] && s.values == map["Target" := "t"]
  {
    TargetSectionLines();
    hide Lines, Comment, Bullet, ParseFrom, TargetSection;
    ParseHeaderLine(START, "uid", "u", [Bullet("Target") + "t"]);
    var header := START.(comments := START.comments["uid" := "u"], kinds := START.kinds + [HeaderLine]);
    TargetBullet(header);
  }

  /** Without a commit in between the bullets are lost: here the target. */
  lemma UncommittedEntryIsLost()
    ensures var text := TargetSection();
            && EntryOf(text, "a", NO_REGISTRY).Some?
            && Rewritten(text, "a", PriorName(NO_REGISTRY)).Some?
            && EntryOf(Rewritten(text, "a", PriorName(NO_REGISTRY)).value, "a", NO_REGISTRY)
               != EntryOf(text, "a", NO_REGISTRY)
  {
    hide Lines, TargetSection, Parsed, Rewritten, Capability;
    TargetSectionParse();
    assert EntryOf(TargetSection(), "a", NO_REGISTRY).value.target == Some("t");
    SecondRunKeepsEntryIff(TargetSection(), "a", NO_REGISTRY, NO_REGISTRY);
  }
}
