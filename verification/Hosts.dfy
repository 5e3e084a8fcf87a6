/** Host names: one spelling for every way to write a host, truncation to what DNS
    permits, and the parent-domain lookup. Characters are ASCII. */
module Hosts {

  // ----- string operations

  /** Position of the first `c`, or the length when there is none. */
  function IndexOf(s: string, c: char): (i: nat)
    ensures i <= |s|
    ensures i < |s| ==> s[i] == c
    ensures forall j :: 0 <= j < i ==> s[j] != c
    ensures i == |s| <==> c !in s
  {
    if s == "" || s[0] == c then 0 else 1 + IndexOf(s[1..], c)
  }

  function BeforeFirst(s: string, c: char): string {
    s[..IndexOf(s, c)]
  }

  /** The part after the last `c`, or all of `s`. */
  function AfterLast(s: string, c: char): string
    decreases |s|
  {
    if c in s then AfterLast(s[IndexOf(s, c) + 1..], c) else s
  }

  function StripDots(s: string): (r: string)
    ensures r <= s
    ensures r == "" || r[|r| - 1] != '.'
    ensures forall i :: |r| <= i < |s| ==> s[i] == '.'
  {
    if s != "" && s[|s| - 1] == '.' then StripDots(s[..|s| - 1]) else s
  }

  function LowerChar(c: char): char {
    if 'A' <= c <= 'Z' then c + 32 as char else c
  }

  function Lower(s: string): (r: string)
    ensures |r| == |s| && forall i :: 0 <= i < |s| ==> r[i] == LowerChar(s[i])
  {
    seq(|s|, i requires 0 <= i < |s| => LowerChar(s[i]))
  }

  // ----- the canonical spelling

  predicate DefaultPort(port: string) {
    port == "" || port == "80" || port == "443"
  }

  predicate Bracketed(host: string) {
    host != "" && host[0] == '['
  }

  /** The host without a default port; a bracketed literal loses any port, an
      unbracketed one keeps every other port. */
  function DropPort(host: string): string {
    if Bracketed(host) then
      var close := IndexOf(host, ']');
      if close < |host| then host[..close + 1] + BeforeFirst(host[close + 1..], ':') else host
    else if ':' in host then
      if DefaultPort(Port(host)) then BeforeFirst(host, ':') else host
    else host
  }

  function Port(host: string): string
    requires ':' in host
  {
    host[IndexOf(host, ':') + 1..]
  }

  function CanonicalHost(netloc: string): string {
    Lower(StripDots(DropPort(AfterLast(netloc, '@'))))
  }

  // ----- facts about the pieces

  lemma {:induction false} AfterLastFree(s: string, c: char)
    ensures c !in AfterLast(s, c)
    decreases |s|
  {
    if c in s { AfterLastFree(s[IndexOf(s, c) + 1..], c); }
  }

  lemma AfterLastStep(s: string, c: char)
    ensures AfterLast(s, c) == if c in s then AfterLast(s[IndexOf(s, c) + 1..], c) else s
  {}

  lemma {:induction false} AfterLastOf(u: string, host: string, c: char)
    requires c !in host
    ensures AfterLast(u + [c] + host, c) == host
    decreases |u|
  {
    hide AfterLast, IndexOf;
    var s := u + [c] + host;
    assert s[|u|] == c;
    var i := IndexOf(s, c);
    assert i <= |u|;
    AfterLastStep(s, c);
    AfterLastStep(host, c);
    if i == |u| {
      assert s[i + 1..] == host;
    } else {
      assert s[i + 1..] == u[i + 1..] + [c] + host;
      AfterLastOf(u[i + 1..], host, c);
    }
  }

  lemma IndexUnique(s: string, c: char, i: nat)
    requires i < |s| && s[i] == c && forall j :: 0 <= j < i ==> s[j] != c
    ensures IndexOf(s, c) == i
  {}

  lemma StripUnique(s: string, r: string)
    requires r <= s && (r == "" || r[|r| - 1] != '.') && forall i :: |r| <= i < |s| ==> s[i] == '.'
    ensures StripDots(s) == r
  {
    var t := StripDots(s);
    assert t == s[..|t|] && r == s[..|r|];
  }

  lemma LowerKeeps(s: string, c: char)
    requires !('a' <= c <= 'z') && !('A' <= c <= 'Z')
    ensures c in Lower(s) <==> c in s
    ensures forall i :: 0 <= i < |s| ==> (Lower(s)[i] == c <==> s[i] == c)
  {
    if c in s { var i :| 0 <= i < |s| && s[i] == c; assert Lower(s)[i] == c; }
    if c in Lower(s) { var i :| 0 <= i < |s| && Lower(s)[i] == c; assert s[i] == c; }
  }

  /** A stripped lower-case text is a fixed point of both steps. */
  lemma CleanIsFixed(s: string)
    ensures var r := Lower(StripDots(s)); StripDots(r) == r && Lower(r) == r
  {
    var t := StripDots(s);
    var r := Lower(t);
    LowerKeeps(t, '.');
    StripUnique(r, r);
    assert Lower(r) == r;
  }

  // ----- idempotence

  /** An unbracketed port part that is not a default port, but becomes one when its
      trailing dots are dropped. */
  predicate DottedDefaultPort(host: string) {
    !Bracketed(host) && ':' in host && !DefaultPort(Port(host)) && DefaultPort(StripDots(Port(host)))
  }

  /** Canonicalising twice is canonicalising once, except exactly for a host whose
      port part ends in dots and is a default port without them. */
  lemma CanonicalIdempotentIff(netloc: string)
    ensures CanonicalHost(CanonicalHost(netloc)) == CanonicalHost(netloc)
       <==> !DottedDefaultPort(AfterLast(netloc, '@'))
  {
    hide DropPort, DefaultPort;
    var host := AfterLast(netloc, '@');
    var r := CanonicalHost(netloc);
    AfterLastFree(netloc, '@');
    NoAt(host);
    assert AfterLast(r, '@') == r;
    CleanIsFixed(DropPort(host));
    if DottedDefaultPort(host) {
      PortSurvives(host);
    } else {
      PortSettled(host);
    }
  }

  lemma NoAt(host: string)
    requires '@' !in host
    ensures '@' !in Lower(StripDots(DropPort(host)))
  {
    var s := DropPort(host);
    assert forall c :: c in s ==> c in host;
    LowerKeeps(StripDots(s), '@');
  }

  /** The spelling keeps a port that the second pass removes. */
  lemma PortSurvives(host: string)
    requires DottedDefaultPort(host)
    ensures var r := Lower(StripDots(DropPort(host)));
            Lower(StripDots(DropPort(r))) != r
  {
    hide StripDots, Lower;
    var r := Lower(StripDots(DropPort(host)));
    StrippedPort(host);
    LowerDefault(StripDots(Port(host)));
    var again := StripDots(DropPort(r));
    assert DropPort(r) == BeforeFirst(r, ':');
    LowerKeeps(again, ':');
    assert ':' !in again by { assert again <= DropPort(r); }
  }

  /** With a port that is kept, the spelling still shows the host part, the colon
      and the stripped port. */
  lemma StrippedPort(host: string)
    requires !Bracketed(host) && ':' in host && !DefaultPort(Port(host))
    ensures var r := Lower(StripDots(DropPort(host)));
            && !Bracketed(r) && ':' in r && Port(r) == Lower(StripDots(Port(host)))
            && IndexOf(r, ':') == IndexOf(host, ':')
  {
    hide IndexOf, Lower, StripDots, DefaultPort;
    var i := IndexOf(host, ':');
    var port := StripDots(Port(host));
    var kept := host[..i + 1] + port;
    assert host[i + 1..] == Port(host);
    forall k | |kept| <= k < |host| ensures host[k] == '.' { assert Port(host)[k - i - 1] == '.'; }
    assert kept <= host;
    assert kept[|kept| - 1] != '.' by {
      if port == "" { assert kept[i] == ':'; } else { assert kept[|kept| - 1] == port[|port| - 1]; }
    }
    StripUnique(host, kept);
    var r := Lower(kept);
    LowerKeeps(kept, ':');
    LowerKeeps(kept, '[');
    assert kept[i] == ':';
    IndexUnique(r, ':', i);
    assert kept[i + 1..] == port;
    assert r[i + 1..] == Lower(port);
  }

  lemma LowerDefault(port: string)
    ensures DefaultPort(Lower(port)) <==> DefaultPort(port)
  {
    var l := Lower(port);
    if DefaultPort(port) {
      assert forall i :: 0 <= i < |port| ==> l[i] == port[i];
      assert l == port;
    }
    if DefaultPort(l) {
      assert forall i :: 0 <= i < |port| ==> port[i] == l[i];
      assert l == port;
    }
  }

  /** In every other case the second pass finds nothing to drop. */
  lemma PortSettled(host: string)
    requires !DottedDefaultPort(host)
    ensures var r := Lower(StripDots(DropPort(host))); DropPort(r) == r
  {
    hide StripDots, Lower;
    var s := DropPort(host);
    var t := StripDots(s);
    var r := Lower(t);
    LowerKeeps(t, '[');
    LowerKeeps(t, ':');
    LowerKeeps(t, ']');
    if Bracketed(host) {
      SettledBracket(host);
    } else if ':' in host && !DefaultPort(Port(host)) {
      StrippedPort(host);
      LowerDefault(StripDots(Port(host)));
    } else {
      assert ':' !in s;
      assert ':' !in t;
      assert t != "" ==> t[0] == s[0] == host[0];
    }
  }

  lemma SettledBracket(host: string)
    requires Bracketed(host)
    ensures var r := Lower(StripDots(DropPort(host))); DropPort(r) == r
  {
    hide StripDots, Lower;
    var s := DropPort(host);
    var t := StripDots(s);
    var r := Lower(t);
    LowerKeeps(t, '[');
    LowerKeeps(t, ']');
    var close := IndexOf(host, ']');
    assert s[0] == '[';
    if close < |host| {
      assert s[close] == ']' && |t| > close;
      assert forall j :: 0 <= j < close ==> t[j] == host[j];
      IndexUnique(r, ']', close);
      NoColonBehind(host, t, close);
      NothingBehind(t, close);
    } else {
      assert t != "";
      assert ']' !in t;
    }
  }

  lemma NothingBehind(t: string, close: nat)
    requires close < |t| && ':' !in t[close + 1..]
    ensures var r := Lower(t); r[..close + 1] + BeforeFirst(r[close + 1..], ':') == r
  {
    hide Lower;
    var r := Lower(t);
    var behind := r[close + 1..];
    assert behind == Lower(t[close + 1..]);
    LowerKeeps(t[close + 1..], ':');
    assert BeforeFirst(behind, ':') == behind;
    assert r[..close + 1] + behind == r;
  }

  lemma NoColonBehind(host: string, t: string, close: nat)
    requires close < |t| && close < |host|
    requires t <= host[..close + 1] + BeforeFirst(host[close + 1..], ':')
    ensures ':' !in t[close + 1..]
  {
    var tail := BeforeFirst(host[close + 1..], ':');
    var u := t[close + 1..];
    assert forall j :: 0 <= j < |u| ==> u[j] == (host[..close + 1] + tail)[close + 1 + j] == tail[j];
  }

  // ----- one value for every spelling

  /** A host written without decoration. */
  predicate PlainHost(h: string) {
    '@' !in h && ':' !in h && (h == "" || (h[0] != '[' && h[|h| - 1] != '.'))
  }

  function Dots(n: nat): (s: string)
    ensures |s| == n && forall i :: 0 <= i < n ==> s[i] == '.'
  {
    if n == 0 then "" else "." + Dots(n - 1)
  }

  predicate PortSpelling(p: string) {
    p == "" || p == ":" || p == ":80" || p == ":443"
  }

  /** Userinfo or none, any case, any number of root-label dots, a default port or
      none: every spelling of a plain host canonicalises to its lower-case form. */
  lemma EverySpellingIsOneHost(h: string, variant: string, userinfo: string, dots: nat, port: string)
    requires PlainHost(h) && Lower(variant) == Lower(h) && PortSpelling(port)
    requires userinfo == "" || userinfo[|userinfo| - 1] == '@'
    ensures CanonicalHost(userinfo + variant + Dots(dots) + port) == Lower(h)
  {
    hide DropPort, StripDots, Lower, Dots, AfterLast;
    SameShape(h, variant);
    var host := variant + Dots(dots) + port;
    assert '@' !in port && '@' !in Dots(dots) && ':' !in Dots(dots);
    assert '@' !in host;
    AtPrefix(userinfo, host);
    assert userinfo + variant + Dots(dots) + port == userinfo + host;
    DropsPort(variant + Dots(dots), port);
    StripUnique(variant + Dots(dots), variant);
  }

  /** No capital letter is left. */
  lemma NoCapitals(netloc: string)
    ensures forall c :: c in CanonicalHost(netloc) ==> !('A' <= c <= 'Z')
  {
    var t := StripDots(DropPort(AfterLast(netloc, '@')));
    assert forall i :: 0 <= i < |t| ==> Lower(t)[i] == LowerChar(t[i]);
  }

  /** Each character of `variant` is that of `h` or its capital. */
  ghost predicate Capitalises(variant: string, h: string) {
    && |variant| == |h|
    && forall i :: 0 <= i < |h| ==>
         variant[i] == h[i] || ('A' <= variant[i] <= 'Z' && h[i] as int == variant[i] as int + 32)
  }

  /** Every spelling of a plain host without capitals, its letters capitalised at will,
      canonicalises to the host itself. */
  lemma EverySpellingIsTheHost(h: string, variant: string, userinfo: string, dots: nat, port: string)
    requires PlainHost(h) && (forall c :: c in h ==> !('A' <= c <= 'Z')) && Capitalises(variant, h)
    requires PortSpelling(port) && (userinfo == "" || userinfo[|userinfo| - 1] == '@')
    ensures CanonicalHost(userinfo + variant + Dots(dots) + port) == h
  {
    forall i | 0 <= i < |h| ensures Lower(h)[i] == h[i] && Lower(variant)[i] == h[i] {
      assert h[i] in h;
    }
    assert Lower(h) == h && Lower(variant) == h;
    hide CanonicalHost, Lower, PlainHost, Dots;
    EverySpellingIsOneHost(h, variant, userinfo, dots, port);
  }

  lemma KeepsOtherPort(h: string, port: string)
    requires ':' !in h && !Bracketed(h) && !DefaultPort(port)
    ensures DropPort(h + ":" + port) == h + ":" + port
  {
    var host := h + ":" + port;
    assert host[|h|] == ':';
    IndexUnique(host, ':', |h|);
    assert Port(host) == port;
  }

  lemma LowerParts(a: string, b: string, c: string)
    requires Lower(b) == b
    ensures Lower(a + b + c) == Lower(a) + b + Lower(c)
  {
    assert forall i :: 0 <= i < |b| ==> Lower(b)[i] == b[i];
  }

  /** Any other port is part of the result. */
  lemma OtherPortIsKept(h: string, userinfo: string, port: string)
    requires PlainHost(h) && '@' !in port && port != "" && port != "80" && port != "443" && port[|port| - 1] != '.'
    requires userinfo == "" || userinfo[|userinfo| - 1] == '@'
    ensures CanonicalHost(userinfo + h + ":" + port) == Lower(h) + ":" + Lower(port)
  {
    hide StripDots, AfterLast, DropPort, Lower;
    var host := h + ":" + port;
    AtPrefix(userinfo, host);
    assert userinfo + h + ":" + port == userinfo + host;
    KeepsOtherPort(h, port);
    assert host[|host| - 1] == port[|port| - 1];
    StripUnique(host, host);
    LowerParts(h, ":", port);
  }

  lemma DropsLiteralPort(addr: string, port: string)
    requires ']' !in addr
    ensures DropPort("[" + addr + "]:" + port) == "[" + addr + "]"
  {
    var host := "[" + addr + "]:" + port;
    assert host[0] == '[' && host[|addr| + 1] == ']' && forall j :: 0 < j <= |addr| ==> host[j] == addr[j - 1];
    IndexUnique(host, ']', |addr| + 1);
    assert host[..|addr| + 2] == "[" + addr + "]";
    assert host[|addr| + 2..] == ":" + port;
    IndexUnique(":" + port, ':', 0);
  }

  /** A bracketed literal loses whatever port follows it. */
  lemma LiteralPortIsDropped(addr: string, userinfo: string, port: string)
    requires '@' !in addr && ']' !in addr && '@' !in port
    requires userinfo == "" || userinfo[|userinfo| - 1] == '@'
    ensures CanonicalHost(userinfo + "[" + addr + "]:" + port) == "[" + Lower(addr) + "]"
  {
    hide StripDots, AfterLast, DropPort, Lower;
    var host := "[" + addr + "]:" + port;
    AtPrefix(userinfo, host);
    assert userinfo + "[" + addr + "]:" + port == userinfo + host;
    DropsLiteralPort(addr, port);
    var literal := "[" + addr + "]";
    assert literal[|literal| - 1] == ']';
    StripUnique(literal, literal);
    LowerLiteral(addr);
  }

  lemma LowerLiteral(addr: string)
    ensures Lower("[" + addr + "]") == "[" + Lower(addr) + "]"
  {}

  lemma SameShape(h: string, v: string)
    requires PlainHost(h) && Lower(v) == Lower(h)
    ensures PlainHost(v)
  {
    assert |v| == |h| by { assert |Lower(v)| == |v| && |Lower(h)| == |h|; }
    LowerKeeps(h, '@'); LowerKeeps(v, '@');
    LowerKeeps(h, ':'); LowerKeeps(v, ':');
    LowerKeeps(h, '['); LowerKeeps(v, '[');
    LowerKeeps(h, '.'); LowerKeeps(v, '.');
  }

  lemma AtPrefix(userinfo: string, host: string)
    requires '@' !in host && (userinfo == "" || userinfo[|userinfo| - 1] == '@')
    ensures AfterLast(userinfo + host, '@') == host
  {
    if userinfo == "" {
      assert userinfo + host == host;
    } else {
      var u := userinfo[..|userinfo| - 1];
      assert userinfo + host == u + ['@'] + host;
      AfterLastOf(u, host, '@');
    }
  }

  lemma DropsPort(h: string, port: string)
    requires ':' !in h && !Bracketed(h + port) && PortSpelling(port)
    ensures DropPort(h + port) == h
  {
    if port == "" {
      assert h + port == h;
    } else {
      var s := h + port;
      assert s[|h|] == ':';
      IndexUnique(s, ':', |h|);
      assert s[|h| + 1..] == port[1..];
      assert s[..|h|] == h;
    }
  }
}
