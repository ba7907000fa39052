/**
 * The URI grammar of uhal: a PEG (Boost.Spirit Qi) parser for
 *   protocol "://" hostname ":" port [ "/" path ] [ "." extension ] [ "?" pairs ]
 * modelled as recursive functions, and the two printers of a parsed URI
 * (the stream operator and the log inserter) modelled as loops over the
 * argument list.
 *
 * Spirit's sequence `a > b` is an expectation: once `a` has matched, a
 * failing `b` raises an expectation failure instead of backtracking.  The
 * result type `Parsed` keeps the two kinds of failure apart: `NoMatch` is
 * a soft failure (the rule did not apply), `Expected(at)` is the hard one,
 * carrying the input left where the expectation failed.
 */
module UrlGrammar {

  datatype Argument = Argument(name: string, value: string)

  /** The fields of a parsed URI; an absent optional part is the empty string. */
  datatype Uri = Uri(protocol: string, hostname: string, port: string,
                     path: string, extension: string, arguments: seq<Argument>)

  datatype Parsed<T> = NoMatch | Expected(at: string) | Match(value: T, rest: string)

  /** The character sets the rules repeat over. */
  datatype CharClass =
    | NotColon        // char_ - ':'            (protocol, hostname)
    | NotPunct        // char_ - ascii::punct   (port)
    | PathChar        // char_ - '.' - '?'      (path)
    | ExtensionChar   // char_ - '?'            (extension)
    | KeyChar         // char_ - '='            (argument name)
    | ValueChar       // char_ - '&'            (argument value)

  /** ASCII punctuation: the printable characters that are neither letters, digits nor space. */
  predicate IsAsciiPunct(c: char) {
    ('!' <= c <= '/') || (':' <= c <= '@') || ('[' <= c <= '`') || ('{' <= c <= '~')
  }

  predicate Admits(cls: CharClass, c: char) {
    match cls
    case NotColon => c != ':'
    case NotPunct => !IsAsciiPunct(c)
    case PathChar => c != '.' && c != '?'
    case ExtensionChar => c != '?'
    case KeyChar => c != '='
    case ValueChar => c != '&'
  }

  predicate AllAdmit(w: string, cls: CharClass) {
    forall i :: 0 <= i < |w| ==> Admits(cls, w[i])
  }

  /** A repetition over `cls` cannot continue on `s`. */
  predicate StopsAt(s: string, cls: CharClass) {
    s == [] || !Admits(cls, s[0])
  }

  /** The length of the longest prefix of `s` whose characters `cls` admits. */
  function Span(s: string, cls: CharClass): (n: nat)
    ensures n <= |s|
  {
    if s == [] || !Admits(cls, s[0]) then 0 else 1 + Span(s[1..], cls)
  }

  /** Span stops exactly at the first character the class does not admit. */
  lemma {:induction false} SpanMaximal(s: string, cls: CharClass)
    ensures AllAdmit(s[..Span(s, cls)], cls) && StopsAt(s[Span(s, cls)..], cls)
    decreases |s|
  {
    if s != [] && Admits(cls, s[0]) {
      var n := Span(s, cls);
      SpanMaximal(s[1..], cls);
      assert s[n..] == s[1..][n - 1..];
      assert forall i :: 1 <= i < n ==> s[..n][i] == s[1..][..n - 1][i - 1];
    }
  }

  /** Any split into an admitted prefix and a stopping suffix is the one Span finds. */
  lemma SpanUnique(s: string, cls: CharClass, n: nat)
    requires n <= |s| && AllAdmit(s[..n], cls) && StopsAt(s[n..], cls)
    ensures Span(s, cls) == n
  {
    SpanMaximal(s, cls);
  }

  /** `+(cls)`: one or more characters of the class, greedily. */
  function Plus(s: string, cls: CharClass): Parsed<string> {
    var n := Span(s, cls);
    if n == 0 then NoMatch else Match(s[..n], s[n..])
  }

  /** `p > lit(l)`: after a match of `p`, the literal `l` is required. */
  function Then<T>(p: Parsed<T>, l: string): Parsed<T> {
    match p
    case Match(v, r) => if l <= r then Match(v, r[|l|..]) else Expected(r)
    case _ => p
  }

  /** A rule in expectation position: its soft failure at `s` becomes a hard one. */
  function Required<T>(p: Parsed<T>, s: string): Parsed<T> {
    if p.NoMatch? then Expected(s) else p
  }

  /** `-(rule)`: a soft failure at `s` matches nothing and yields `none`. */
  function Optional<T>(p: Parsed<T>, s: string, none: T): Parsed<T> {
    if p.NoMatch? then Match(none, s) else p
  }

  /** Passes a failure on to a rule with a different result type. */
  function Propagate<T, U>(p: Parsed<T>): Parsed<U>
    requires !p.Match?
  {
    if p.NoMatch? then NoMatch else Expected(p.at)
  }

  /** protocol: a non-empty run without ':' up to a required "://"; soft failure only when no such run starts `s`. */
  function Protocol(s: string): (r: Parsed<string>)
    ensures r.NoMatch? <==> StopsAt(s, NotColon)
    ensures r.Match? ==> |r.value| > 0 && AllAdmit(r.value, NotColon) && s == r.value + ("://" + r.rest)
  {
    SpanMaximal(s, NotColon);
    LiteralAfterRun(s, Span(s, NotColon), "://");
    Then(Plus(s, NotColon), "://")
  }

  /** hostname: a non-empty run without ':' up to a required ':'. */
  function Hostname(s: string): (r: Parsed<string>)
    ensures r.NoMatch? <==> StopsAt(s, NotColon)
    ensures r.Match? ==> |r.value| > 0 && AllAdmit(r.value, NotColon) && s == r.value + (":" + r.rest)
  {
    SpanMaximal(s, NotColon);
    LiteralAfterRun(s, Span(s, NotColon), ":");
    Then(Plus(s, NotColon), ":")
  }

  /** port: the longest non-empty run of characters that are not ASCII punctuation. */
  function Port(s: string): (r: Parsed<string>)
    ensures r.NoMatch? <==> StopsAt(s, NotPunct)
    ensures r.Match? ==> |r.value| > 0 && AllAdmit(r.value, NotPunct) && StopsAt(r.rest, NotPunct)
                         && s == r.value + r.rest
  {
    SpanMaximal(s, NotPunct);
    Plus(s, NotPunct)
  }

  /** path: '/', then a required non-empty run up to '.' or '?'. */
  function Path(s: string): (r: Parsed<string>)
    ensures r.NoMatch? <==> !("/" <= s)
    ensures r.Expected? <==> "/" <= s && StopsAt(s[1..], PathChar)
    ensures r.Match? ==> |r.value| > 0 && AllAdmit(r.value, PathChar) && StopsAt(r.rest, PathChar)
                         && s == "/" + (r.value + r.rest)
  {
    if "/" <= s then
      SpanMaximal(s[1..], PathChar);
      Required(Plus(s[1..], PathChar), s[1..])
    else NoMatch
  }

  /** extension: '.', then a required non-empty run up to '?'. */
  function Extension(s: string): (r: Parsed<string>)
    ensures r.NoMatch? <==> !("." <= s)
    ensures r.Expected? <==> "." <= s && StopsAt(s[1..], ExtensionChar)
    ensures r.Match? ==> |r.value| > 0 && AllAdmit(r.value, ExtensionChar) && StopsAt(r.rest, ExtensionChar)
                         && s == "." + (r.value + r.rest)
  {
    if "." <= s then
      SpanMaximal(s[1..], ExtensionChar);
      Required(Plus(s[1..], ExtensionChar), s[1..])
    else NoMatch
  }

  /** The text a run of `n` characters and a present literal `l` take up at the start of `s`. */
  lemma LiteralAfterRun(s: string, n: nat, l: string)
    requires n <= |s|
    ensures l <= s[n..] ==> s == s[..n] + (l + s[n..][|l|..])
  {
    if l <= s[n..] {
      assert s[n..] == l + s[n..][|l|..];
      assert s == s[..n] + s[n..];
    }
  }

  /** data_pairs: a non-empty name up to a required '=', a value up to '&', an optional '&'. */
  function Pair(s: string): (r: Parsed<Argument>)
    ensures r.Match? ==> |r.rest| < |s|
  {
    var key := Then(Plus(s, KeyChar), "=");
    if !key.Match? then Propagate(key)
    else
      var r := key.rest;
      var m := Span(r, ValueChar);
      Match(Argument(key.value, r[..m]), if "&" <= r[m..] then r[m + 1..] else r[m..])
  }

  /** `*data_pairs`: pairs until one does not apply; never a soft failure. */
  function Pairs(s: string): (r: Parsed<seq<Argument>>)
    ensures !r.NoMatch?
    decreases |s|
  {
    var first := Pair(s);
    if first.NoMatch? then Match([], s)
    else if first.Expected? then Expected(first.at)
    else
      var more := Pairs(first.rest);
      if more.Match? then Match([first.value] + more.value, more.rest) else more
  }

  /** data_pairs_vector: '?', then the pairs; soft failure only without the '?'. */
  function Arguments(s: string): (r: Parsed<seq<Argument>>)
    ensures r.NoMatch? <==> !("?" <= s)
    ensures r.Match? ==> (forall i :: 0 <= i < |r.value| ==> ArgumentWellFormed(r.value[i])) && IsSuffix(r.rest, s)
  {
    if "?" <= s then
      var pairs := Pairs(s[1..]);
      if pairs.Match? then
        PairsSound(s[1..]);
        SuffixTrans(pairs.rest, s[1..], s);
        pairs
      else pairs
    else NoMatch
  }

  /** The optional parts after the port. */
  datatype Locator = Locator(path: string, extension: string, arguments: seq<Argument>)

  /** -path > -extension > -arguments: never a soft failure. */
  function LocatorPart(s: string): Parsed<Locator> {
    var path := Optional(Path(s), s, "");
    if !path.Match? then Propagate(path) else AfterPath(path.value, path.rest)
  }

  /** -extension > -arguments, once the path has been read. */
  function AfterPath(path: string, s: string): Parsed<Locator> {
    var extension := Optional(Extension(s), s, "");
    if !extension.Match? then Propagate(extension) else AfterExtension(path, extension.value, extension.rest)
  }

  /** -arguments, once the path and the extension have been read. */
  function AfterExtension(path: string, extension: string, s: string): Parsed<Locator> {
    var arguments := Optional(Arguments(s), s, []);
    if !arguments.Match? then Propagate(arguments)
    else Match(Locator(path, extension, arguments.value), arguments.rest)
  }

  /**
   * The start rule: protocol > hostname > port > -path > -extension > -arguments.
   * The only soft failures are an empty input and one that starts with ':';
   * a match keeps the protocol it read before "://".
   */
  function Parse(s: string): (r: Parsed<Uri>)
    ensures r.NoMatch? <==> s == [] || s[0] == ':'
    ensures r.Match? ==> |r.value.protocol| > 0 && r.value.protocol + "://" <= s
  {
    var protocol := Protocol(s);
    if !protocol.Match? then Propagate(protocol) else AfterProtocol(protocol.value, protocol.rest)
  }

  /** hostname > port > ..., once the protocol and "://" have been read. */
  function AfterProtocol(protocol: string, s: string): (r: Parsed<Uri>)
    ensures !r.NoMatch?
    ensures r.Match? ==> r.value.protocol == protocol
  {
    var hostname := Required(Hostname(s), s);
    if !hostname.Match? then Propagate(hostname) else AfterHostname(protocol, hostname.value, hostname.rest)
  }

  /** port > -path > -extension > -arguments, once the hostname and ':' have been read. */
  function AfterHostname(protocol: string, hostname: string, s: string): (r: Parsed<Uri>)
    ensures !r.NoMatch?
    ensures r.Match? ==> r.value.protocol == protocol && r.value.hostname == hostname
  {
    var port := Required(Port(s), s);
    if !port.Match? then Propagate(port) else
    var locator := LocatorPart(port.rest);
    if !locator.Match? then Propagate(locator) else
    var l := locator.value;
    Match(Uri(protocol, hostname, port.value, l.path, l.extension, l.arguments), locator.rest)
  }

  /** What the grammar can produce: each field within its character class. */
  predicate WellFormed(u: Uri) {
    && |u.protocol| > 0 && AllAdmit(u.protocol, NotColon)
    && |u.hostname| > 0 && AllAdmit(u.hostname, NotColon)
    && |u.port| > 0 && AllAdmit(u.port, NotPunct)
    && AllAdmit(u.path, PathChar)
    && AllAdmit(u.extension, ExtensionChar)
    && forall i :: 0 <= i < |u.arguments| ==> ArgumentWellFormed(u.arguments[i])
  }

  predicate ArgumentWellFormed(a: Argument) {
    |a.name| > 0 && AllAdmit(a.name, KeyChar) && AllAdmit(a.value, ValueChar)
  }

  /** `d + w` when the optional part `w` is present. */
  function Part(d: string, w: string): string {
    if w == [] then [] else d + w
  }

  function JoinPairs(args: seq<Argument>): string
    requires args != []
  {
    var a := args[0];
    if |args| == 1 then a.name + ("=" + a.value)
    else a.name + ("=" + (a.value + ("&" + JoinPairs(args[1..]))))
  }

  function ArgumentsPart(args: seq<Argument>): string {
    if args == [] then [] else "?" + JoinPairs(args)
  }

  /** The text of a URI in the grammar's own syntax. */
  function Unparse(u: Uri): string {
    u.protocol + ("://" + (u.hostname + (":" + (u.port +
      (Part("/", u.path) + (Part(".", u.extension) + ArgumentsPart(u.arguments)))))))
  }

  // ---------------------------------------------------------------------
  // Round trip: every well-formed URI is read back from its own text.

  lemma DropPrefix(d: string, x: string)
    ensures d <= d + x && (d + x)[|d|..] == x
  {
    assert (d + x)[..|d|] == d;
  }

  lemma PlusOf(w: string, rest: string, cls: CharClass)
    requires |w| > 0 && AllAdmit(w, cls) && StopsAt(rest, cls)
    ensures Plus(w + rest, cls) == Match(w, rest)
  {
    DropPrefix(w, rest);
    assert (w + rest)[..|w|] == w;
    SpanUnique(w + rest, cls, |w|);
  }

  lemma ThenOf<T>(v: T, l: string, rest: string)
    ensures Then(Match(v, l + rest), l) == Match(v, rest)
  {
    DropPrefix(l, rest);
  }

  lemma PairOf(a: Argument, tail: string)
    requires ArgumentWellFormed(a) && StopsAt(tail, ValueChar)
    ensures Pair(a.name + ("=" + (a.value + tail)))
         == Match(a, if "&" <= tail then tail[1..] else tail)
  {
    var r := a.value + tail;
    PlusOf(a.name, "=" + r, KeyChar);
    ThenOf(a.name, "=", r);
    DropPrefix(a.value, tail);
    assert r[..|a.value|] == a.value;
    SpanUnique(r, ValueChar, |a.value|);
  }

  lemma PairsStep(s: string, a: Argument, x: string)
    requires Pair(s) == Match(a, x) && Pairs(x).Match?
    ensures Pairs(s) == Match([a] + Pairs(x).value, Pairs(x).rest)
  {
  }

  /** The last pair of a list: its value runs to the end of the text. */
  lemma PairsLast(a: Argument)
    requires ArgumentWellFormed(a)
    ensures Pairs(a.name + ("=" + a.value)) == Match([a], "")
  {
    var s := a.name + ("=" + a.value);
    assert s == a.name + ("=" + (a.value + ""));
    PairOf(a, "");
    assert Pair(s) == Match(a, "");
    assert Pairs("") == Match([], "");
    PairsStep(s, a, "");
    assert [a] + [] == [a];
  }

  /** One more pair, and its '&', in front of text the pair list reads back. */
  lemma PairsCons(a: Argument, x: string, more: seq<Argument>)
    requires ArgumentWellFormed(a) && Pairs(x) == Match(more, "")
    ensures Pairs(a.name + ("=" + (a.value + ("&" + x)))) == Match([a] + more, "")
  {
    DropPrefix("&", x);
    PairOf(a, "&" + x);
    PairsStep(a.name + ("=" + (a.value + ("&" + x))), a, x);
  }

  lemma HeadTail<T>(s: seq<T>)
    requires s != []
    ensures [s[0]] + s[1..] == s
  {
  }

  /** The text of a list of two or more pairs is its first pair, '&' and the rest. */
  lemma JoinCons(args: seq<Argument>)
    requires |args| > 1 && Pairs(JoinPairs(args[1..])) == Match(args[1..], "")
    requires ArgumentWellFormed(args[0])
    ensures Pairs(JoinPairs(args)) == Match(args, "")
  {
    var a := args[0];
    assert JoinPairs(args) == a.name + ("=" + (a.value + ("&" + JoinPairs(args[1..]))));
    PairsCons(a, JoinPairs(args[1..]), args[1..]);
    HeadTail(args);
  }

  lemma {:induction false} PairsRoundTrip(args: seq<Argument>)
    requires args != []
    requires forall i :: 0 <= i < |args| ==> ArgumentWellFormed(args[i])
    ensures Pairs(JoinPairs(args)) == Match(args, "")
    decreases |args|
  {
    assert ArgumentWellFormed(args[0]);
    if |args| == 1 {
      PairsLast(args[0]);
      HeadTail(args);
    } else {
      PairsRoundTrip(args[1..]);
      JoinCons(args);
    }
  }

  lemma PathOf(w: string, rest: string)
    requires AllAdmit(w, PathChar) && (rest == [] || rest[0] == '.' || rest[0] == '?')
    ensures Optional(Path(Part("/", w) + rest), Part("/", w) + rest, "") == Match(w, rest)
  {
    if w != [] {
      assert Part("/", w) + rest == "/" + (w + rest);
      DropPrefix("/", w + rest);
      PlusOf(w, rest, PathChar);
    } else {
      assert Part("/", w) + rest == rest;
    }
  }

  lemma ExtensionOf(w: string, rest: string)
    requires AllAdmit(w, ExtensionChar) && (rest == [] || rest[0] == '?')
    ensures Optional(Extension(Part(".", w) + rest), Part(".", w) + rest, "") == Match(w, rest)
  {
    if w != [] {
      assert Part(".", w) + rest == "." + (w + rest);
      DropPrefix(".", w + rest);
      PlusOf(w, rest, ExtensionChar);
    } else {
      assert Part(".", w) + rest == rest;
    }
  }

  /** What follows the path starts with '.' or '?', or is empty. */
  lemma AfterPathStart(extension: string, args: seq<Argument>)
    ensures var r := Part(".", extension) + ArgumentsPart(args);
            r == [] || r[0] == '.' || r[0] == '?'
  {
  }

  lemma AfterExtensionRoundTrip(path: string, extension: string, args: seq<Argument>)
    requires forall i :: 0 <= i < |args| ==> ArgumentWellFormed(args[i])
    ensures AfterExtension(path, extension, ArgumentsPart(args)) == Match(Locator(path, extension, args), "")
  {
    if args != [] {
      DropPrefix("?", JoinPairs(args));
      PairsRoundTrip(args);
    }
  }

  lemma AfterPathRoundTrip(path: string, extension: string, args: seq<Argument>)
    requires AllAdmit(extension, ExtensionChar)
    requires forall i :: 0 <= i < |args| ==> ArgumentWellFormed(args[i])
    ensures AfterPath(path, Part(".", extension) + ArgumentsPart(args)) == Match(Locator(path, extension, args), "")
  {
    ExtensionOf(extension, ArgumentsPart(args));
    AfterExtensionRoundTrip(path, extension, args);
  }

  lemma LocatorRoundTrip(l: Locator)
    requires AllAdmit(l.path, PathChar) && AllAdmit(l.extension, ExtensionChar)
    requires forall i :: 0 <= i < |l.arguments| ==> ArgumentWellFormed(l.arguments[i])
    ensures LocatorPart(Part("/", l.path) + (Part(".", l.extension) + ArgumentsPart(l.arguments)))
         == Match(l, "")
  {
    AfterPathStart(l.extension, l.arguments);
    PathOf(l.path, Part(".", l.extension) + ArgumentsPart(l.arguments));
    AfterPathRoundTrip(l.path, l.extension, l.arguments);
  }

  lemma {:induction false} RoundTrip(u: Uri)
    requires WellFormed(u)
    ensures Parse(Unparse(u)) == Match(u, "")
  {
    var afterPath := Part("/", u.path) + (Part(".", u.extension) + ArgumentsPart(u.arguments));
    var afterHost := u.port + afterPath;
    var afterProtocol := u.hostname + (":" + afterHost);
    PlusOf(u.protocol, "://" + afterProtocol, NotColon);
    ThenOf(u.protocol, "://", afterProtocol);
    assert Protocol(Unparse(u)) == Match(u.protocol, afterProtocol);
    PlusOf(u.hostname, ":" + afterHost, NotColon);
    ThenOf(u.hostname, ":", afterHost);
    assert Hostname(afterProtocol) == Match(u.hostname, afterHost);
    PlusOf(u.port, afterPath, NotPunct);
    assert Port(afterHost) == Match(u.port, afterPath);
    LocatorRoundTrip(Locator(u.path, u.extension, u.arguments));
  }

  // ---------------------------------------------------------------------
  // Soundness: whatever the grammar reads is well formed and was a prefix
  // of the input.

  predicate IsSuffix(r: string, s: string) {
    |r| <= |s| && r == s[|s| - |r|..]
  }

  lemma SuffixTrans(a: string, b: string, c: string)
    requires IsSuffix(a, b) && IsSuffix(b, c)
    ensures IsSuffix(a, c)
  {
    assert c[|c| - |a|..] == c[|c| - |b|..][|b| - |a|..];
  }

  lemma SuffixDrop(s: string, k: nat)
    requires k <= |s|
    ensures IsSuffix(s[k..], s)
  {
  }

  lemma PlusSound(s: string, cls: CharClass)
    requires Plus(s, cls).Match?
    ensures var p := Plus(s, cls);
            |p.value| > 0 && AllAdmit(p.value, cls) && IsSuffix(p.rest, s)
  {
    SpanMaximal(s, cls);
    SuffixDrop(s, Span(s, cls));
  }

  lemma ThenSound<T>(p: Parsed<T>, l: string)
    requires p.Match? && Then(p, l).Match?
    ensures Then(p, l).value == p.value && IsSuffix(Then(p, l).rest, p.rest)
  {
    SuffixDrop(p.rest, |l|);
  }

  lemma PairSound(s: string)
    requires Pair(s).Match?
    ensures ArgumentWellFormed(Pair(s).value) && IsSuffix(Pair(s).rest, s)
  {
    var plus := Plus(s, KeyChar);
    PlusSound(s, KeyChar);
    ThenSound(plus, "=");
    var r := Then(plus, "=").rest;
    SuffixTrans(r, plus.rest, s);
    var m := Span(r, ValueChar);
    SpanMaximal(r, ValueChar);
    var rest := if "&" <= r[m..] then r[m + 1..] else r[m..];
    SuffixDrop(r, |r| - |rest|);
    assert rest == r[|r| - |rest|..];
    SuffixTrans(rest, r, s);
  }

  lemma {:induction false} PairsSound(s: string)
    requires Pairs(s).Match?
    ensures forall i :: 0 <= i < |Pairs(s).value| ==> ArgumentWellFormed(Pairs(s).value[i])
    ensures IsSuffix(Pairs(s).rest, s)
    decreases |s|
  {
    var first := Pair(s);
    if first.Match? {
      PairSound(s);
      PairsSound(first.rest);
      SuffixTrans(Pairs(first.rest).rest, first.rest, s);
      assert Pairs(s).value == [first.value] + Pairs(first.rest).value;
    }
  }

  lemma OptionalPartSound(s: string, d: string, cls: CharClass)
    requires d == "/" || d == "."
    requires var p := if d <= s then Required(Plus(s[1..], cls), s[1..]) else NoMatch;
             p.Match?
    ensures var p := Required(Plus(s[1..], cls), s[1..]);
            AllAdmit(p.value, cls) && IsSuffix(p.rest, s) && s == d + (p.value + p.rest)
  {
    PlusSound(s[1..], cls);
    SuffixDrop(s, 1);
    SuffixTrans(Plus(s[1..], cls).rest, s[1..], s);
    var n := Span(s[1..], cls);
    assert s == d + (s[1..][..n] + s[1..][n..]);
  }

  lemma AfterExtensionSound(path: string, extension: string, s: string)
    requires AfterExtension(path, extension, s).Match?
    ensures var r := AfterExtension(path, extension, s);
            && r.value.path == path && r.value.extension == extension
            && (forall i :: 0 <= i < |r.value.arguments| ==> ArgumentWellFormed(r.value.arguments[i]))
            && IsSuffix(r.rest, s)
  {
    if Arguments(s).Match? {
      PairsSound(s[1..]);
      SuffixDrop(s, 1);
      SuffixTrans(Pairs(s[1..]).rest, s[1..], s);
    }
  }

  lemma AfterPathSound(path: string, s: string)
    requires AfterPath(path, s).Match?
    ensures var r := AfterPath(path, s);
            && r.value.path == path && AllAdmit(r.value.extension, ExtensionChar)
            && (forall i :: 0 <= i < |r.value.arguments| ==> ArgumentWellFormed(r.value.arguments[i]))
            && IsSuffix(r.rest, s)
  {
    var extension := Optional(Extension(s), s, "");
    if Extension(s).Match? { OptionalPartSound(s, ".", ExtensionChar); }
    AfterExtensionSound(path, extension.value, extension.rest);
    SuffixTrans(AfterPath(path, s).rest, extension.rest, s);
  }

  lemma LocatorSound(s: string)
    requires LocatorPart(s).Match?
    ensures var l := LocatorPart(s).value;
            && AllAdmit(l.path, PathChar) && AllAdmit(l.extension, ExtensionChar)
            && (forall i :: 0 <= i < |l.arguments| ==> ArgumentWellFormed(l.arguments[i]))
            && IsSuffix(LocatorPart(s).rest, s)
  {
    var path := Optional(Path(s), s, "");
    if Path(s).Match? { OptionalPartSound(s, "/", PathChar); }
    AfterPathSound(path.value, path.rest);
    SuffixTrans(LocatorPart(s).rest, path.rest, s);
  }

  /**
   * Everything the grammar reads is well formed, the text left over is a
   * suffix of the input, and the URI read is written back to text that is
   * read as the same URI.
   */
  lemma ParseSound(s: string)
    requires Parse(s).Match?
    ensures WellFormed(Parse(s).value) && IsSuffix(Parse(s).rest, s)
    ensures Parse(Unparse(Parse(s).value)) == Match(Parse(s).value, "")
  {
    var protocol := Plus(s, NotColon);
    PlusSound(s, NotColon);
    ThenSound(protocol, "://");
    var r1 := Protocol(s).rest;
    SuffixTrans(r1, protocol.rest, s);
    AfterProtocolSound(protocol.value, r1);
    SuffixTrans(Parse(s).rest, r1, s);
    RoundTrip(Parse(s).value);
  }

  lemma AfterProtocolSound(protocol: string, s: string)
    requires |protocol| > 0 && AllAdmit(protocol, NotColon)
    requires AfterProtocol(protocol, s).Match?
    ensures WellFormed(AfterProtocol(protocol, s).value) && AfterProtocol(protocol, s).value.protocol == protocol
    ensures IsSuffix(AfterProtocol(protocol, s).rest, s)
  {
    var hostname := Plus(s, NotColon);
    PlusSound(s, NotColon);
    ThenSound(hostname, ":");
    var r2 := Hostname(s).rest;
    SuffixTrans(r2, hostname.rest, s);
    AfterHostnameSound(protocol, hostname.value, r2);
    SuffixTrans(AfterProtocol(protocol, s).rest, r2, s);
  }

  lemma AfterHostnameSound(protocol: string, hostname: string, s: string)
    requires |protocol| > 0 && AllAdmit(protocol, NotColon)
    requires |hostname| > 0 && AllAdmit(hostname, NotColon)
    requires AfterHostname(protocol, hostname, s).Match?
    ensures var r := AfterHostname(protocol, hostname, s);
            WellFormed(r.value) && r.value.protocol == protocol && IsSuffix(r.rest, s)
  {
    PlusSound(s, NotPunct);
    var r3 := Port(s).rest;
    LocatorSound(r3);
    SuffixTrans(LocatorPart(r3).rest, r3, s);
  }

  /** A protocol not followed by "://" is a hard failure. */
  lemma MissingSeparator(s: string)
    requires var n := Span(s, NotColon); n > 0 && !("://" <= s[n..])
    ensures Parse(s) == Expected(s[Span(s, NotColon)..])
  {
  }

  /** A URI whose port is empty is a hard failure where the port was expected. */
  lemma MissingPort(protocol: string, hostname: string, t: string)
    requires |protocol| > 0 && AllAdmit(protocol, NotColon)
    requires |hostname| > 0 && AllAdmit(hostname, NotColon)
    requires StopsAt(t, NotPunct)
    ensures Parse(protocol + ("://" + (hostname + (":" + t)))) == Expected(t)
  {
    PlusOf(protocol, "://" + (hostname + (":" + t)), NotColon);
    ThenOf(protocol, "://", hostname + (":" + t));
    PlusOf(hostname, ":" + t, NotColon);
    ThenOf(hostname, ":", t);
    assert Span(t, NotPunct) == 0;
  }

  /**
   * The mediated-transport URI of the performance suite, written piece by
   * piece, is read field by field with one argument.
   */
  lemma ChtcpExample()
    ensures Parse("chtcp-2.0" + ("://" + ("pc-e1x06-36-01" + (":" + ("10203" +
                  ("?" + ("target" + ("=" + "amc-e1a12-19-09:50001"))))))))
         == Match(Uri("chtcp-2.0", "pc-e1x06-36-01", "10203", "", "",
                      [Argument("target", "amc-e1a12-19-09:50001")]), "")
  {
    var u := Uri("chtcp-2.0", "pc-e1x06-36-01", "10203", "", "",
                 [Argument("target", "amc-e1a12-19-09:50001")]);
    assert WellFormed(u);
    var query := "?" + ("target" + ("=" + "amc-e1a12-19-09:50001"));
    assert ArgumentsPart(u.arguments) == query;
    assert Part("/", "") + (Part(".", "") + query) == query;
    RoundTrip(u);
  }

  // ---------------------------------------------------------------------
  // Printing a parsed URI.

  /** The fixed part of the printout: every field, in declaration order. */
  function Header(u: Uri): string {
    " > protocol : " + u.protocol + "\n > hostname : " + u.hostname + "\n > port : " + u.port
    + "\n > path : " + u.path + "\n > extension : " + u.extension + "\n > arguments :\n"
  }

  function ArgumentLine(a: Argument): string {
    "   > " + a.name + " = " + a.value + "\n"
  }

  /** One line per argument, in stored order. */
  function ArgumentLines(args: seq<Argument>): string {
    if args == [] then [] else ArgumentLines(args[..|args| - 1]) + ArgumentLine(args[|args| - 1])
  }

  function Render(u: Uri): string {
    Header(u) + ArgumentLines(u.arguments)
  }

  /** The lines of two argument lists one after the other are the lines of the joined list. */
  lemma {:induction false} ArgumentLinesAppend(a: seq<Argument>, b: seq<Argument>)
    ensures ArgumentLines(a + b) == ArgumentLines(a) + ArgumentLines(b)
    decreases |b|
  {
    if b == [] {
      assert a + b == a;
    } else {
      var n := |b| - 1;
      assert (a + b)[..|a + b| - 1] == a + b[..n];
      assert (a + b)[|a + b| - 1] == b[n];
      ArgumentLinesAppend(a, b[..n]);
      AppendAssoc(ArgumentLines(a), ArgumentLines(b[..n]), ArgumentLine(b[n]));
    }
  }

  lemma AppendAssoc(a: string, b: string, c: string)
    ensures (a + b) + c == a + (b + c)
  {
  }

  /** Appending an argument line piece by piece appends ArgumentLine. */
  lemma LineAppend(x: string, a: Argument)
    ensures x + "   > " + a.name + " = " + a.value + "\n" == x + ArgumentLine(a)
  {
  }

  lemma NextLine(args: seq<Argument>, i: nat)
    requires i < |args|
    ensures ArgumentLines(args[..i + 1]) == ArgumentLines(args[..i]) + ArgumentLine(args[i])
  {
    assert args[..i + 1][..i] == args[..i];
  }

  /**
   * The stream operator: appends the printout of `u` to `stream`, one
   * insertion at a time.
   */
  method WriteUri(stream: string, u: Uri) returns (out: string)
    ensures out == stream + Render(u)
  {
    out := stream + " > protocol : " + u.protocol + "\n";
    out := out + " > hostname : " + u.hostname + "\n";
    out := out + " > port : " + u.port + "\n";
    out := out + " > path : " + u.path + "\n";
    out := out + " > extension : " + u.extension + "\n";
    out := out + " > arguments :\n";
    HeaderInsertions(stream, u);
    out := WriteArguments(out, u.arguments);
    AppendAssoc(stream, Header(u), ArgumentLines(u.arguments));
  }

  /** The stream operator's loop over the arguments, one line per argument. */
  method WriteArguments(stream: string, args: seq<Argument>) returns (out: string)
    ensures out == stream + ArgumentLines(args)
  {
    out := stream;
    var i := 0;
    while i < |args|
      invariant i <= |args|
      invariant out == stream + ArgumentLines(args[..i])
    {
      var a := args[i];
      out := out + "   > " + a.name + " = " + a.value + "\n";
      LineAppend(stream + ArgumentLines(args[..i]), a);
      NextLine(args, i);
      i := i + 1;
    }
    assert args[..i] == args;
  }

  /** The stream operator's insertions, line by line, spell out the header. */
  lemma HeaderInsertions(stream: string, u: Uri)
    ensures stream + " > protocol : " + u.protocol + "\n" + " > hostname : " + u.hostname + "\n"
            + " > port : " + u.port + "\n" + " > path : " + u.path + "\n"
            + " > extension : " + u.extension + "\n" + " > arguments :\n"
         == stream + Header(u)
  {
    Titles();
    var h := stream + " > protocol : " + u.protocol;
    Newline(h, " > hostname : ");
    h := h + "\n > hostname : " + u.hostname;
    Newline(h, " > port : ");
    h := h + "\n > port : " + u.port;
    Newline(h, " > path : ");
    h := h + "\n > path : " + u.path;
    Newline(h, " > extension : ");
    h := h + "\n > extension : " + u.extension;
    Newline(h, " > arguments :\n");
  }

  /** A newline inserted before a title reads as the title with its leading newline. */
  lemma Newline(h: string, title: string)
    ensures h + "\n" + title == h + ("\n" + title)
  {
  }

  /** The log inserter's titles are the stream operator's, each after a newline. */
  lemma Titles()
    ensures "\n" + " > hostname : " == "\n > hostname : "
    ensures "\n" + " > port : " == "\n > port : "
    ensures "\n" + " > path : " == "\n > path : "
    ensures "\n" + " > extension : " == "\n > extension : "
    ensures "\n" + " > arguments :\n" == "\n > arguments :\n"
  {
  }

  /**
   * The log inserter: appends the same printout to a log entry, one
   * insertion at a time.
   */
  method LogUri(entry: string, u: Uri) returns (out: string)
    ensures out == entry + Render(u)
  {
    out := entry + " > protocol : ";
    out := out + u.protocol;
    out := out + "\n > hostname : ";
    out := out + u.hostname;
    out := out + "\n > port : ";
    out := out + u.port;
    out := out + "\n > path : ";
    out := out + u.path;
    out := out + "\n > extension : ";
    out := out + u.extension;
    out := out + "\n > arguments :\n";
    assert out == entry + Header(u);
    out := LogArguments(out, u.arguments);
    AppendAssoc(entry, Header(u), ArgumentLines(u.arguments));
  }

  /** The log inserter's loop over the arguments, five insertions per argument. */
  method LogArguments(entry: string, args: seq<Argument>) returns (out: string)
    ensures out == entry + ArgumentLines(args)
  {
    out := entry;
    var i := 0;
    while i < |args|
      invariant i <= |args|
      invariant out == entry + ArgumentLines(args[..i])
    {
      var a := args[i];
      out := out + "   > ";
      out := out + a.name;
      out := out + " = ";
      out := out + a.value;
      out := out + ['\n'];
      LineAppend(entry + ArgumentLines(args[..i]), a);
      NextLine(args, i);
      i := i + 1;
    }
    assert args[..i] == args;
  }
}
