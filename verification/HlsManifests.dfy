/** Rewriting an HLS playlist: which texts change, and the per-call cache of signed addresses. */
module HlsManifests {
  import opened HlsPaths
  import opened Texts
  import opened Wrappers

  // ---- URI attributes ------------------------------------------------------------------------

  const OPENING: string := "URI=\""

  /** Where the first quote at or after `from` is; the length when there is none. */
  function QuoteFrom(line: string, from: nat): (q: nat)
    requires from <= |line|
    ensures from <= q <= |line| && (q < |line| ==> line[q] == '"')
    ensures forall i :: from <= i < q ==> line[i] != '"'
    decreases |line| - from
  {
    if from == |line| || line[from] == '"' then from else QuoteFrom(line, from + 1)
  }

  /** A quoted, non-empty URI attribute starts at `at`. */
  predicate StartsUri(line: string, at: nat) {
    && at + 5 <= |line| && line[at..at + 5] == OPENING
    && at + 5 < QuoteFrom(line, at + 5) < |line|
  }

  /** The first attribute at or after `from`; the length when there is none. */
  function NextUri(line: string, from: nat): (at: nat)
    requires from <= |line|
    ensures from <= at <= |line| && (at < |line| ==> StartsUri(line, at))
    ensures forall i :: from <= i < at ==> !StartsUri(line, i)
    decreases |line| - from
  {
    if from == |line| || StartsUri(line, from) then from else NextUri(line, from + 1)
  }

  type Rewriter = string -> Option<string>

  /** Where the next attribute at or after a position starts and its closing quote is. */
  type Finder = nat -> Option<(nat, nat)>

  /** What is found is an opening, a value and a closing quote inside the line. */
  ghost predicate IsFinder(line: string, find: Finder) {
    forall c: nat :: c <= |line| && find(c).Some? ==>
      var (at, close) := find(c).value;
      c <= at && at + 5 <= close < |line| && line[at..at + 5] == OPENING && line[close] == '"'
  }

  function UriFinder(line: string): Finder {
    (c: nat) =>
      if c > |line| || NextUri(line, c) == |line| then None
      else Some((NextUri(line, c), QuoteFrom(line, NextUri(line, c) + 5)))
  }

  lemma UriFinderFinds(line: string)
    ensures IsFinder(line, UriFinder(line))
  {
  }

  /** It finds the leftmost quoted, non-empty attribute. */
  lemma UriFinderIsLeftmost(line: string, c: nat)
    requires c <= |line|
    ensures match UriFinder(line)(c)
            case None => forall i :: c <= i < |line| ==> !StartsUri(line, i)
            case Some(found) =>
              && StartsUri(line, found.0) && (forall i :: c <= i < found.0 ==> !StartsUri(line, i))
              && found.0 + 5 < found.1 < |line| && forall i :: found.0 + 5 <= i < found.1 ==> line[i] != '"'
  {
  }

  /** A line cut up into plain texts and the attribute values between them. */
  datatype Pieces = Last(text: string) | Uri(text: string, value: string, rest: Pieces)

  function Attribute(value: string): string {
    OPENING + value + "\""
  }

  /** The rest of the line from `cursor` on, cut up. */
  function Cut(line: string, cursor: nat, find: Finder): Pieces
    requires cursor <= |line| && IsFinder(line, find)
    decreases |line| - cursor
  {
    match find(cursor)
    case None => Last(line[cursor..])
    case Some((at, close)) => Uri(line[cursor..at], line[at + 5..close], Cut(line, close + 1, find))
  }

  function Weave(p: Pieces): string {
    match p
    case Last(text) => text
    case Uri(text, value, rest) => text + Attribute(value) + Weave(rest)
  }

  lemma SliceAround(line: string, cursor: nat, at: nat, close: nat)
    requires cursor <= at && at + 5 <= close < |line| && line[at..at + 5] == OPENING && line[close] == '"'
    ensures line[cursor..] == line[cursor..at] + Attribute(line[at + 5..close]) + line[close + 1..]
  {
    assert line[at..close + 1] == line[at..at + 5] + line[at + 5..close] + [line[close]];
    assert line[cursor..] == line[cursor..at] + line[at..close + 1] + line[close + 1..];
  }

  /** The pieces are the line, cut up: nothing is lost. */
  lemma {:induction false} CutIsLine(line: string, cursor: nat, find: Finder)
    requires cursor <= |line| && IsFinder(line, find)
    ensures Weave(Cut(line, cursor, find)) == line[cursor..]
    decreases |line| - cursor
  {
    if find(cursor).Some? {
      var (at, close) := find(cursor).value;
      CutIsLine(line, close + 1, find);
      SliceAround(line, cursor, at, close);
    }
  }

  /** The pieces with every value rewritten and every text kept; None when a value is refused. */
  function Replace(p: Pieces, rewrite: Rewriter): Option<Pieces> {
    match p
    case Last(_) => Some(p)
    case Uri(text, value, rest) =>
      var first, after := rewrite(value), Replace(rest, rewrite);
      if first == None || after == None then None else Some(Uri(text, first.value, after.value))
  }

  /** The plain texts of the pieces. */
  function PlainTexts(p: Pieces): seq<string> {
    match p
    case Last(text) => [text]
    case Uri(text, _, rest) => [text] + PlainTexts(rest)
  }

  /** The attribute values of the pieces. */
  function Values(p: Pieces): seq<string> {
    match p
    case Last(_) => []
    case Uri(_, value, rest) => [value] + Values(rest)
  }

  ghost predicate AllAccepted(values: seq<string>, rewrite: Rewriter) {
    forall i :: 0 <= i < |values| ==> rewrite(values[i]).Some?
  }

  lemma AcceptedAfterFirst(value: string, rest: seq<string>, rewrite: Rewriter)
    ensures AllAccepted([value] + rest, rewrite) <==> rewrite(value).Some? && AllAccepted(rest, rewrite)
  {
    var all := [value] + rest;
    assert all[0] == value && forall i :: 0 <= i < |rest| ==> all[i + 1] == rest[i];
    if AllAccepted(all, rewrite) {
      forall i | 0 <= i < |rest|
        ensures rewrite(rest[i]).Some?
      {
        assert rewrite(all[i + 1]).Some?;
      }
    }
  }

  /** Replacing keeps all text outside the values and rewrites each value; it is refused exactly when a value is. */
  lemma {:induction false} ReplaceKeepsTexts(p: Pieces, rewrite: Rewriter)
    ensures Replace(p, rewrite).Some? <==> AllAccepted(Values(p), rewrite)
    ensures Replace(p, rewrite).Some? ==>
              var r := Replace(p, rewrite).value;
              && PlainTexts(r) == PlainTexts(p) && |Values(r)| == |Values(p)|
              && forall i :: 0 <= i < |Values(p)| ==> rewrite(Values(p)[i]) == Some(Values(r)[i])
  {
    match p
    case Last(_) =>
    case Uri(text, value, rest) =>
      ReplaceKeepsTexts(rest, rewrite);
      AcceptedAfterFirst(value, Values(rest), rewrite);
  }

  function Woven(p: Option<Pieces>): Option<string> {
    if p == None then None else Some(Weave(p.value))
  }

  /** `output`, then the pieces with their values rewritten; None when one is refused. */
  function ReplaceOnto(output: string, p: Pieces, rewrite: Rewriter): Option<string>
    decreases p
  {
    match p
    case Last(text) => Some(output + text)
    case Uri(text, value, rest) =>
      var replaced := rewrite(value);
      if replaced == None then None else ReplaceOnto(output + (text + Attribute(replaced.value)), rest, rewrite)
  }

  /** The next attribute is rewritten, then what follows it. */
  lemma ReplaceOntoNext(line: string, cursor: nat, find: Finder, at: nat, close: nat, text: string, value: string,
                        output: string, rewrite: Rewriter)
    requires cursor <= |line| && IsFinder(line, find) && find(cursor) == Some((at, close))
    requires text == line[cursor..at] && value == line[at + 5..close]
    ensures var replaced := rewrite(value);
            ReplaceOnto(output, Cut(line, cursor, find), rewrite) ==
            if replaced == None then None
            else ReplaceOnto(output + (text + Attribute(replaced.value)), Cut(line, close + 1, find), rewrite)
  {
  }

  /** The line with every attribute value rewritten. */
  function ReplaceUris(line: string, rewrite: Rewriter): Option<string> {
    UriFinderFinds(line);
    ReplaceOnto("", Cut(line, 0, UriFinder(line)), rewrite)
  }

  /** It is the text of the replaced pieces. */
  lemma {:induction false} ReplaceOntoIsWoven(output: string, p: Pieces, rewrite: Rewriter)
    ensures ReplaceOnto(output, p, rewrite) ==
            match Woven(Replace(p, rewrite)) case None => None case Some(text) => Some(output + text)
    decreases p
  {
    match p
    case Last(_) =>
    case Uri(text, value, rest) =>
      if rewrite(value).Some? {
        var first := text + Attribute(rewrite(value).value);
        ReplaceOntoIsWoven(output + first, rest, rewrite);
        if Replace(rest, rewrite).Some? {
          assert output + first + Weave(Replace(rest, rewrite).value)
                 == output + (first + Weave(Replace(rest, rewrite).value));
        }
      }
  }

  // ---- References ----------------------------------------------------------------------------

  /** How references are resolved, and what keys become: a playlist's link from its path below the prefix, or the
      signed address of any other object. */
  datatype Context = Context(resolve: Rewriter, prefix: nat, link: string -> string, sign: string -> string)

  function RewriteReference(c: Context, uri: string): Option<string> {
    var key := c.resolve(uri);
    if key == None then None
    else if IsPlaylist(key.value) then Some(c.link(if c.prefix <= |key.value| then key.value[c.prefix..] else ""))
    else Some(c.sign(key.value))
  }

  function ReferenceRewriter(c: Context): Rewriter {
    (uri: string) => RewriteReference(c, uri)
  }

  /** The context of one playlist below a master playlist. */
  function PlaylistContext(master: string, current: string, link: string -> string, sign: string -> string): Context
    requires IsPlaylistKey(master) && IsPlaylistKey(current)
  {
    PlaylistKeyIsFile(master);
    Context((uri: string) => ResolveReference(master, current, uri), |RootPrefix(master)|, link, sign)
  }

  lemma RewrittenKey(c: Context, uri: string, key: string)
    requires c.resolve(uri) == Some(key) && c.prefix <= |key|
    ensures RewriteReference(c, uri) == Some(if IsPlaylist(key) then c.link(key[c.prefix..]) else c.sign(key))
  {
  }

  /** An accepted reference becomes a link whose path is accepted again as the same key, or the signed address of a key
      inside the master playlist's directory. */
  lemma RewrittenReference(lessonPrefix: string, master: string, current: string, link: string -> string,
                           sign: string -> string, uri: string, key: string)
    requires IsPlaylistKey(master) && IsPlaylistKey(current) && lessonPrefix <= master
    requires ResolveReference(master, current, uri) == Some(key)
    ensures master != "" && !IsAbsolute(master) && !EndsWithSlash(master) && RootPrefix(master) <= key
            && IsCanonical(key)
    ensures var path := key[|RootPrefix(master)|..];
            && RewriteReference(PlaylistContext(master, current, link, sign), uri)
               == Some(if IsPlaylist(key) then link(path) else sign(key))
            && (IsPlaylist(key) ==> RenderKey(lessonPrefix, master, Some(path)) == Some(key))
  {
    ResolvedIsInside(master, current, uri);
    RewrittenKey(PlaylistContext(master, current, link, sign), uri, key);
    if IsPlaylist(key) {
      LinkRoundTrip(lessonPrefix, master, current, uri, key);
    }
  }

  /** A tag line has its attributes rewritten, a reference line is rewritten whole, and a blank line stays. */
  function RewriteLine(line: string, rewrite: Rewriter): Option<string> {
    if line != "" && line[0] == '#' then ReplaceUris(line, rewrite)
    else if Trim(line) != "" then rewrite(line)
    else Some(line)
  }

  function LineRewriter(rewrite: Rewriter): Rewriter {
    (line: string) => RewriteLine(line, rewrite)
  }

  /** The rewritten lines; None when one is refused. */
  function RewriteLines(lines: seq<string>, rewriteLine: Rewriter): Option<seq<string>> {
    if lines == [] then Some([])
    else
      var n := |lines| - 1;
      var before, last := RewriteLines(lines[..n], rewriteLine), rewriteLine(lines[n]);
      if before == None || last == None then None else Some(before.value + [last.value])
  }

  lemma RewriteLinesNext(lines: seq<string>, k: nat, rewriteLine: Rewriter, before: seq<string>, next: Option<string>)
    requires k < |lines| && RewriteLines(lines[..k], rewriteLine) == Some(before) && next == rewriteLine(lines[k])
    ensures if next == None then RewriteLines(lines, rewriteLine) == None
            else RewriteLines(lines[..k + 1], rewriteLine) == Some(before + [next.value])
  {
    assert lines[..k + 1][..k] == lines[..k];
    if next == None {
      RefusedLine(lines, k + 1, rewriteLine);
    }
  }

  lemma {:induction false} RefusedLine(lines: seq<string>, n: nat, rewriteLine: Rewriter)
    requires n <= |lines| && RewriteLines(lines[..n], rewriteLine) == None
    ensures RewriteLines(lines, rewriteLine) == None
    decreases |lines|
  {
    if n < |lines| {
      assert lines[..|lines| - 1][..n] == lines[..n];
      RefusedLine(lines[..|lines| - 1], n, rewriteLine);
    } else {
      assert lines[..n] == lines;
    }
  }

  /** Every line is rewritten in its place, and the number of lines stays. */
  lemma {:induction false} LinesKeepTheirPlaces(lines: seq<string>, rewriteLine: Rewriter, i: nat)
    requires RewriteLines(lines, rewriteLine).Some?
    ensures |RewriteLines(lines, rewriteLine).value| == |lines|
    ensures i < |lines| ==> rewriteLine(lines[i]) == Some(RewriteLines(lines, rewriteLine).value[i])
    decreases |lines|
  {
    if lines != [] {
      LinesKeepTheirPlaces(lines[..|lines| - 1], rewriteLine, i);
    }
  }

  const HEADER: string := "#EXTM3U"

  /** Without a leading byte-order mark. */
  function WithoutMark(s: string): string {
    if s != "" && s[0] == '\U{feff}' then s[1..] else s
  }

  predicate IsManifest(s: string) {
    HEADER <= s && |s| <= 1024 * 1024
  }

  function WithoutReturn(line: string): string {
    if line != "" && line[|line| - 1] == '\r' then line[..|line| - 1] else line
  }

  /** The lines between line feeds, each without the carriage return before its line feed. */
  function SplitLines(s: string): seq<string> {
    var lines := Split(s, '\n');
    seq(|lines|, i requires 0 <= i < |lines| => if i < |lines| - 1 then WithoutReturn(lines[i]) else lines[i])
  }

  /** `line` is `raw` without one carriage return at its end, if it has one. */
  ghost predicate IsWithoutReturn(raw: string, line: string) {
    raw == line + ['\r'] || (raw == line && (raw == "" || raw[|raw| - 1] != '\r'))
  }

  lemma ReturnIsDropped(raw: string)
    ensures IsWithoutReturn(raw, WithoutReturn(raw))
  {
    if raw != "" && raw[|raw| - 1] == '\r' {
      assert raw == raw[..|raw| - 1] + ['\r'];
    }
  }

  /** The lines are those between line feeds, each but the last without one carriage return before its line feed. */
  lemma LinesAreSplit(s: string)
    ensures var raw, lines := Split(s, '\n'), SplitLines(s);
            && |lines| == |raw| && lines[|raw| - 1] == raw[|raw| - 1]
            && forall i :: 0 <= i < |raw| - 1 ==> IsWithoutReturn(raw[i], lines[i])
  {
    var raw, lines := Split(s, '\n'), SplitLines(s);
    forall i | 0 <= i < |raw| - 1
      ensures IsWithoutReturn(raw[i], lines[i])
    {
      ReturnIsDropped(raw[i]);
    }
  }

  /** A leading byte-order mark is dropped, once. */
  lemma MarkIsDropped(s: string)
    ensures WithoutMark("\U{feff}" + s) == s
    ensures s == "" || s[0] != '\U{feff}' ==> WithoutMark(s) == s
  {
  }

  // ---- What each line becomes ----------------------------------------------------------------

  /** `out` is the link or the signed address of the key that `uri` resolves to. */
  ghost predicate Addresses(c: Context, uri: string, out: string) {
    match c.resolve(uri)
    case None => false
    case Some(key) =>
      out == if IsPlaylist(key) then c.link(if c.prefix <= |key| then key[c.prefix..] else "") else c.sign(key)
  }

  /** The characters from `at` to the quote at `close` are a quoted, non-empty URI attribute. */
  predicate IsAttribute(line: string, at: nat, close: nat) {
    && at + 5 < close < |line| && line[at..at + 5] == "URI=\"" && line[close] == '"'
    && forall i :: at + 5 <= i < close ==> line[i] != '"'
  }

  /** No attribute starts from `from` up to before `to`. */
  ghost predicate NoneStarts(line: string, from: nat, to: nat) {
    forall start: nat, end: nat :: from <= start < to ==> !IsAttribute(line, start, end)
  }

  /** `text` is the part of the line between the two positions. */
  ghost predicate IsPart(line: string, from: nat, to: nat, text: string) {
    from <= to <= |line| && |text| == to - from && forall i :: 0 <= i < |text| ==> text[i] == line[from + i]
  }

  /** The rest of the line cut up at each leftmost attribute that follows the ones before. */
  ghost predicate IsCut(line: string, cursor: nat, p: Pieces)
    decreases p
  {
    match p
    case Last(text) =>
      && IsPart(line, cursor, |line|, text) && NoneStarts(line, cursor, |line|)
    case Uri(text, value, rest) =>
      var at, close := cursor + |text|, cursor + |text| + 5 + |value|;
      && IsAttribute(line, at, close) && IsPart(line, cursor, at, text) && IsPart(line, at + 5, close, value)
      && NoneStarts(line, cursor, at)
      && IsCut(line, close + 1, rest)
  }

  lemma AttributeEnds(line: string, at: nat, close: nat, end: nat)
    requires IsAttribute(line, at, close) && at + 5 <= end < |line| && line[end] == '"'
    requires forall i :: at + 5 <= i < end ==> line[i] != '"'
    ensures close == end
  {
  }

  lemma StartsExactly(line: string, at: nat)
    ensures StartsUri(line, at) <==> exists close: nat :: IsAttribute(line, at, close)
    ensures StartsUri(line, at) ==> IsAttribute(line, at, QuoteFrom(line, at + 5))
  {
    if close: nat :| IsAttribute(line, at, close) {
      AttributeEnds(line, at, close, QuoteFrom(line, at + 5));
    }
    if StartsUri(line, at) {
      assert IsAttribute(line, at, QuoteFrom(line, at + 5));
    }
  }

  /** `found` is the leftmost attribute from position `c` on. */
  ghost predicate IsLeftmost(line: string, c: nat, found: Option<(nat, nat)>) {
    match found
    case None => NoneStarts(line, c, |line|)
    case Some(f) => c <= f.0 && IsAttribute(line, f.0, f.1) && NoneStarts(line, c, f.0)
  }

  /** What is found after a position is the leftmost attribute there. */
  ghost predicate FindsLeftmost(line: string, find: Finder) {
    forall c: nat :: c <= |line| ==> IsLeftmost(line, c, find(c))
  }

  lemma NoneStartsBefore(line: string, from: nat, to: nat)
    requires forall at: nat :: from <= at < to ==> !StartsUri(line, at)
    ensures NoneStarts(line, from, to)
  {
    forall at: nat, close: nat | from <= at < to
      ensures !IsAttribute(line, at, close)
    {
      StartsExactly(line, at);
    }
  }

  lemma NextIsLeftmost(line: string, c: nat)
    requires c <= |line|
    ensures var next := NextUri(line, c);
            NoneStarts(line, c, next) && (next < |line| ==> IsAttribute(line, next, QuoteFrom(line, next + 5)))
  {
    var next := NextUri(line, c);
    NoneStartsBefore(line, c, next);
    if next < |line| {
      StartsExactly(line, next);
    }
  }

  lemma FinderAt(line: string, c: nat)
    requires c <= |line|
    ensures IsLeftmost(line, c, UriFinder(line)(c))
  {
    NextIsLeftmost(line, c);
  }

  lemma UriFinderFindsLeftmost(line: string)
    ensures FindsLeftmost(line, UriFinder(line))
  {
    forall c: nat | c <= |line|
      ensures IsLeftmost(line, c, UriFinder(line)(c))
    {
      FinderAt(line, c);
    }
  }

  /** The pieces of the rest of the line, cut where the finder says. */
  ghost predicate IsCutBy(line: string, cursor: nat, find: Finder, p: Pieces)
    decreases p
  {
    match p
    case Last(text) => find(cursor) == None && IsPart(line, cursor, |line|, text)
    case Uri(text, value, rest) =>
      find(cursor).Some?
      && var (at, close) := find(cursor).value;
         IsPart(line, cursor, at, text) && IsPart(line, at + 5, close, value) && IsCutBy(line, close + 1, find, rest)
  }

  lemma {:induction false} CutIsByFinder(line: string, cursor: nat, find: Finder)
    requires cursor <= |line| && IsFinder(line, find)
    ensures IsCutBy(line, cursor, find, Cut(line, cursor, find))
    decreases |line| - cursor
  {
    if find(cursor).Some? {
      CutIsByFinder(line, find(cursor).value.1 + 1, find);
    }
  }

  lemma {:induction false} LeftmostIsCut(line: string, cursor: nat, find: Finder, p: Pieces)
    requires cursor <= |line| && FindsLeftmost(line, find) && IsCutBy(line, cursor, find, p)
    ensures IsCut(line, cursor, p)
    decreases p
  {
    assert IsLeftmost(line, cursor, find(cursor));
    if p.Uri? {
      LeftmostIsCut(line, find(cursor).value.1 + 1, find, p.rest);
    }
  }

  /** The pieces are cut at exactly those attributes. */
  lemma CutIsLeftmost(line: string, cursor: nat, find: Finder)
    requires cursor <= |line| && IsFinder(line, find) && FindsLeftmost(line, find)
    ensures IsCut(line, cursor, Cut(line, cursor, find))
  {
    CutIsByFinder(line, cursor, find);
    LeftmostIsCut(line, cursor, find, Cut(line, cursor, find));
  }

  lemma SameCut(line: string, cursor: nat, at: nat, close: nat, at': nat, close': nat)
    requires cursor <= at && cursor <= at' && IsAttribute(line, at, close) && IsAttribute(line, at', close')
    requires NoneStarts(line, cursor, at) && NoneStarts(line, cursor, at')
    ensures at == at' && close == close'
  {
    if at == at' {
      AttributeEnds(line, at, close, close');
    }
  }

  lemma SamePart(line: string, from: nat, to: nat, text: string, other: string)
    requires IsPart(line, from, to, text) && IsPart(line, from, to, other)
    ensures text == other
  {
  }

  lemma BothCut(line: string, cursor: nat, p: Pieces, q: Pieces)
    requires IsCut(line, cursor, p) && IsCut(line, cursor, q) && p.Uri?
    ensures q.Uri?
  {
    assert IsAttribute(line, cursor + |p.text|, cursor + |p.text| + 5 + |p.value|);
  }

  lemma SameHead(line: string, cursor: nat, p: Pieces, q: Pieces)
    requires IsCut(line, cursor, p) && IsCut(line, cursor, q) && p.Uri? && q.Uri?
    ensures p.text == q.text && p.value == q.value
  {
    var at, at' := cursor + |p.text|, cursor + |q.text|;
    SameCut(line, cursor, at, at + 5 + |p.value|, at', at' + 5 + |q.value|);
    SamePart(line, cursor, at, p.text, q.text);
    SamePart(line, at + 5, at + 5 + |p.value|, p.value, q.value);
  }

  /** Two cuts agree up to the rest after the first attribute. */
  lemma SameStart(line: string, cursor: nat, p: Pieces, q: Pieces)
    requires IsCut(line, cursor, p) && IsCut(line, cursor, q)
    ensures p.Last? ==> p == q
    ensures p.Uri? ==>
              var next := cursor + |p.text| + 6 + |p.value|;
              q.Uri? && q.text == p.text && q.value == p.value && IsCut(line, next, p.rest) && IsCut(line, next, q.rest)
  {
    if p.Uri? {
      BothCut(line, cursor, p, q);
      SameHead(line, cursor, p, q);
    } else if q.Uri? {
      BothCut(line, cursor, q, p);
    } else {
      SamePart(line, cursor, |line|, p.text, q.text);
    }
  }

  lemma {:induction false} CutUnique(line: string, cursor: nat, p: Pieces, q: Pieces)
    requires IsCut(line, cursor, p) && IsCut(line, cursor, q)
    ensures p == q
    decreases p
  {
    SameStart(line, cursor, p, q);
    if p.Uri? {
      CutUnique(line, cursor + |p.text| + 6 + |p.value|, p.rest, q.rest);
    }
  }

  /** The same texts, and in the place of each value its address. */
  ghost predicate Readdressed(c: Context, p: Pieces, q: Pieces)
    decreases p
  {
    match p
    case Last(text) => q == p
    case Uri(text, value, rest) =>
      q.Uri? && q.text == text && Addresses(c, value, q.value) && Readdressed(c, rest, q.rest)
  }

  /** What a line becomes: in a tag line exactly the attribute values are replaced by their addresses, any other
      line that is not blank becomes the address of its reference, and a blank line stays. */
  ghost predicate Becomes(c: Context, line: string, out: string) {
    if line != "" && line[0] == '#' then exists p, q :: IsCut(line, 0, p) && Readdressed(c, p, q) && out == Weave(q)
    else if Trim(line) != "" then Addresses(c, line, out)
    else out == line
  }

  /** The line holds a reference that does not resolve. */
  ghost predicate IsRefused(c: Context, line: string) {
    if line != "" && line[0] == '#' then
      exists p, value :: IsCut(line, 0, p) && value in Values(p) && c.resolve(value) == None
    else Trim(line) != "" && c.resolve(line) == None
  }

  lemma {:induction false} ReplaceReaddresses(c: Context, p: Pieces)
    ensures match Replace(p, ReferenceRewriter(c))
            case None => exists value :: value in Values(p) && c.resolve(value) == None
            case Some(q) => Readdressed(c, p, q) && forall value :: value in Values(p) ==> c.resolve(value).Some?
  {
    match p
    case Last(_) =>
    case Uri(text, value, rest) =>
      ReplaceReaddresses(c, rest);
      assert Values(p)[0] == value;
      if v :| v in Values(rest) && c.resolve(v) == None {
        assert v in Values(p);
      }
  }

  lemma TagBecomes(c: Context, line: string)
    requires line != "" && line[0] == '#'
    ensures match RewriteLine(line, ReferenceRewriter(c))
            case None => IsRefused(c, line)
            case Some(out) => Becomes(c, line, out) && !IsRefused(c, line)
  {
    UriFinderFinds(line);
    UriFinderFindsLeftmost(line);
    CutIsLeftmost(line, 0, UriFinder(line));
    var p := Cut(line, 0, UriFinder(line));
    ReplaceReaddresses(c, p);
    ReplaceOntoIsWoven("", p, ReferenceRewriter(c));
    forall q | IsCut(line, 0, q)
      ensures q == p
    {
      CutUnique(line, 0, p, q);
    }
    if Replace(p, ReferenceRewriter(c)).Some? {
      var q := Replace(p, ReferenceRewriter(c)).value;
      assert "" + Weave(q) == Weave(q);
      assert IsCut(line, 0, p) && Readdressed(c, p, q);
    }
  }

  /** A line rewriter gives what a line has to become, and refuses exactly the lines that are to be refused. */
  ghost predicate IsExact(rewriteLine: Rewriter, becomes: (string, string) -> bool, refused: string -> bool) {
    forall line: string ::
      match rewriteLine(line)
      case None => refused(line)
      case Some(out) => becomes(line, out) && !refused(line)
  }

  lemma LineRewriterIsExact(c: Context)
    ensures IsExact(LineRewriter(ReferenceRewriter(c)), (line: string, out: string) => Becomes(c, line, out),
                    (line: string) => IsRefused(c, line))
  {
    forall line: string
      ensures match RewriteLine(line, ReferenceRewriter(c))
              case None => IsRefused(c, line)
              case Some(out) => Becomes(c, line, out) && !IsRefused(c, line)
    {
      if line != "" && line[0] == '#' {
        TagBecomes(c, line);
      }
    }
  }

  /** Then all lines become what they have to, unless one of them is refused. */
  lemma {:induction false} LinesAreExact(lines: seq<string>, rewriteLine: Rewriter, becomes: (string, string) -> bool,
                                         refused: string -> bool)
    requires IsExact(rewriteLine, becomes, refused)
    ensures match RewriteLines(lines, rewriteLine)
            case None => exists i :: 0 <= i < |lines| && refused(lines[i])
            case Some(out) =>
              |out| == |lines| && forall i :: 0 <= i < |lines| ==> becomes(lines[i], out[i]) && !refused(lines[i])
    decreases |lines|
  {
    if lines != [] {
      var n := |lines| - 1;
      LinesAreExact(lines[..n], rewriteLine, becomes, refused);
      assert forall i :: 0 <= i < n ==> lines[..n][i] == lines[i];
      assert match rewriteLine(lines[n])
             case None => refused(lines[n])
             case Some(out) => becomes(lines[n], out) && !refused(lines[n]);
    }
  }

  // ---- Lines of the output -------------------------------------------------------------------

  /** What the rewriter gives holds no line feed. */
  ghost predicate Inline(rewrite: Rewriter) {
    forall v: string :: rewrite(v).Some? ==> '\n' !in rewrite(v).value
  }

  /** Links and signed addresses hold no line feed. */
  ghost predicate InlineContext(c: Context) {
    (forall path: string :: '\n' !in c.link(path)) && forall key: string :: '\n' !in c.sign(key)
  }

  lemma {:induction false} CutStaysInline(line: string, cursor: nat, find: Finder)
    requires cursor <= |line| && IsFinder(line, find) && '\n' !in line
    ensures forall i :: 0 <= i < |PlainTexts(Cut(line, cursor, find))| ==>
              '\n' !in PlainTexts(Cut(line, cursor, find))[i]
    decreases |line| - cursor
  {
    if find(cursor).Some? {
      var (at, close) := find(cursor).value;
      CutStaysInline(line, close + 1, find);
    }
  }

  lemma {:induction false} ReplaceStaysInline(output: string, p: Pieces, rewrite: Rewriter)
    requires Inline(rewrite) && '\n' !in output && forall i :: 0 <= i < |PlainTexts(p)| ==> '\n' !in PlainTexts(p)[i]
    requires ReplaceOnto(output, p, rewrite).Some?
    ensures '\n' !in ReplaceOnto(output, p, rewrite).value
    decreases p
  {
    match p
    case Last(text) =>
      assert PlainTexts(p)[0] == text;
    case Uri(text, value, rest) =>
      assert PlainTexts(p)[0] == text;
      forall i | 0 <= i < |PlainTexts(rest)|
        ensures '\n' !in PlainTexts(rest)[i]
      {
        assert PlainTexts(p)[i + 1] == PlainTexts(rest)[i];
      }
      ReplaceStaysInline(output + (text + Attribute(rewrite(value).value)), rest, rewrite);
  }

  lemma LineStaysInline(line: string, rewrite: Rewriter)
    requires Inline(rewrite) && '\n' !in line && RewriteLine(line, rewrite).Some?
    ensures '\n' !in RewriteLine(line, rewrite).value
  {
    if line != "" && line[0] == '#' {
      UriFinderFinds(line);
      CutStaysInline(line, 0, UriFinder(line));
      ReplaceStaysInline("", Cut(line, 0, UriFinder(line)), rewrite);
    }
  }

  lemma SplitLinesInline(text: string)
    ensures |SplitLines(text)| >= 1
    ensures forall i :: 0 <= i < |SplitLines(text)| ==> '\n' !in SplitLines(text)[i]
  {
    SplitParts(text, '\n');
  }

  /** The output has exactly the rewritten lines, as many as the playlist had, when what is put in
      holds no line feed. */
  lemma OutputLines(text: string, rewrite: Rewriter, lines: seq<string>)
    requires Inline(rewrite) && RewriteLines(SplitLines(text), LineRewriter(rewrite)) == Some(lines)
    ensures Split(Join(lines, '\n'), '\n') == lines && |SplitLines(Join(lines, '\n'))| == |SplitLines(text)|
  {
    SplitLinesInline(text);
    LinesKeepTheirPlaces(SplitLines(text), LineRewriter(rewrite), 0);
    forall i | 0 <= i < |lines|
      ensures '\n' !in lines[i]
    {
      LinesKeepTheirPlaces(SplitLines(text), LineRewriter(rewrite), i);
      LineStaysInline(SplitLines(text)[i], rewrite);
    }
    SplitJoin(lines, '\n');
  }

  lemma ReferencesStayInline(c: Context)
    requires InlineContext(c)
    ensures Inline(ReferenceRewriter(c))
  {
  }

  /** One call of the rewriter, with its own cache of signed addresses. */
  class ManifestRewrite {
    const context: Context
    var signed: map<string, string>

    ghost predicate Valid()
      reads this
    {
      forall key :: key in signed ==> signed[key] == context.sign(key)
    }

    constructor (context: Context)
      ensures Valid() && this.context == context
    {
      this.context, signed := context, map[];
    }

    /** The cached address is what signing the key gives. */
    method Reference(uri: string) returns (r: Option<string>)
      requires Valid()
      modifies this
      ensures Valid() && r == RewriteReference(context, uri)
    {
      var key := context.resolve(uri);
      if key == None {
        return None;
      }
      if IsPlaylist(key.value) {
        return Some(context.link(if context.prefix <= |key.value| then key.value[context.prefix..] else ""));
      }
      if key.value !in signed {
        signed := signed[key.value := context.sign(key.value)];
      }
      return Some(signed[key.value]);
    }

    /** Copies the text between the attributes found and rewrites their values, left to right. */
    method ReplaceFound(line: string, find: Finder) returns (r: Option<string>)
      requires Valid() && IsFinder(line, find)
      modifies this
      ensures Valid() && r == ReplaceOnto("", Cut(line, 0, find), ReferenceRewriter(context))
    {
      ghost var rewrite := ReferenceRewriter(context);
      ghost var all := ReplaceOnto("", Cut(line, 0, find), rewrite);
      var output, cursor: nat := "", 0;
      while find(cursor).Some?
        invariant Valid() && cursor <= |line|
        invariant all == ReplaceOnto(output, Cut(line, cursor, find), rewrite)
        decreases |line| - cursor
      {
        var (at, close) := find(cursor).value;
        var text, value := line[cursor..at], line[at + 5..close];
        ReplaceOntoNext(line, cursor, find, at, close, text, value, output, rewrite);
        var replaced := Reference(value);
        if replaced == None {
          return None;
        }
        output := output + (text + Attribute(replaced.value));
        cursor := close + 1;
      }
      r := Some(output + line[cursor..]);
    }

    method Attributes(line: string) returns (r: Option<string>)
      requires Valid()
      modifies this
      ensures Valid() && r == ReplaceUris(line, ReferenceRewriter(context))
    {
      UriFinderFinds(line);
      r := ReplaceFound(line, UriFinder(line));
    }

    /** Rewrites the lines in order, stopping at the first refused reference. */
    method Lines(lines: seq<string>) returns (r: Option<seq<string>>)
      requires Valid()
      modifies this
      ensures Valid() && r == RewriteLines(lines, LineRewriter(ReferenceRewriter(context)))
    {
      ghost var rewrite := LineRewriter(ReferenceRewriter(context));
      var rewritten: seq<string> := [];
      for k := 0 to |lines|
        invariant Valid() && RewriteLines(lines[..k], rewrite) == Some(rewritten)
      {
        var next := Line(lines[k]);
        RewriteLinesNext(lines, k, rewrite, rewritten, next);
        if next == None {
          return None;
        }
        rewritten := rewritten + [next.value];
      }
      assert lines[..|lines|] == lines;
      return Some(rewritten);
    }

    method Line(line: string) returns (r: Option<string>)
      requires Valid()
      modifies this
      ensures Valid() && r == RewriteLine(line, ReferenceRewriter(context))
    {
      if line != "" && line[0] == '#' {
        r := Attributes(line);
      } else if Trim(line) != "" {
        r := Reference(line);
      } else {
        r := Some(line);
      }
    }

    /** The whole playlist: refused unless it is one and all its references resolve, else what its lines become, joined
        again. */
    method Rewrite(manifest: string) returns (r: Option<string>, ghost out: seq<string>)
      requires Valid()
      modifies this
      ensures Valid()
      ensures var text, lines := WithoutMark(manifest), SplitLines(WithoutMark(manifest));
              && (r == None <==> !("#EXTM3U" <= text) || |text| > 1_048_576
                                 || exists i :: 0 <= i < |lines| && IsRefused(context, lines[i]))
              && (r.Some? ==>
                    && r.value == Join(out, '\n') && |out| == |lines|
                    && forall i :: 0 <= i < |lines| ==> Becomes(context, lines[i], out[i]))
      ensures var text := WithoutMark(manifest);
              var lines := RewriteLines(SplitLines(text), LineRewriter(ReferenceRewriter(context)));
              && (r == if !IsManifest(text) || lines == None then None else Some(Join(lines.value, '\n')))
              && (r.Some? && InlineContext(context) ==>
                    Split(r.value, '\n') == lines.value && |SplitLines(r.value)| == |SplitLines(text)|)
    {
      var text := WithoutMark(manifest);
      if !IsManifest(text) {
        return None, [];
      }
      LineRewriterIsExact(context);
      LinesAreExact(SplitLines(text), LineRewriter(ReferenceRewriter(context)),
                    (line: string, out: string) => Becomes(context, line, out),
                    (line: string) => IsRefused(context, line));
      var lines := Lines(SplitLines(text));
      if lines == None {
        return None, [];
      }
      r, out := Some(Join(lines.value, '\n')), lines.value;
      if InlineContext(context) {
        ReferencesStayInline(context);
        OutputLines(text, ReferenceRewriter(context), lines.value);
      }
    }
  }
}
