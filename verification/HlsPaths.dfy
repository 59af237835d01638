/** Relative paths as Node's `posix` functions treat them, and the object keys an HLS playlist may reference. */
module HlsPaths {
  import opened Texts
  import opened Wrappers

  // ---- Normalizing ---------------------------------------------------------------------------

  /** A path segment that stands for itself. */
  predicate IsPlain(part: string) {
    part != "" && part != "." && part != ".." && '/' !in part
  }

  /** The kept segments after reading `parts`: empty and `.` are dropped, `..` takes back the last real one. */
  function Clean(kept: seq<string>, parts: seq<string>): seq<string>
    decreases |parts|
  {
    if parts == [] then kept
    else if parts[0] == "" || parts[0] == "." then Clean(kept, parts[1..])
    else if parts[0] == ".." && kept != [] && kept[|kept| - 1] != ".." then Clean(kept[..|kept| - 1], parts[1..])
    else Clean(kept + [parts[0]], parts[1..])
  }

  predicate IsAbsolute(s: string) {
    s != "" && s[0] == '/'
  }

  predicate EndsWithSlash(s: string) {
    s != "" && s[|s| - 1] == '/'
  }

  /** `posix.normalize` of a path that is not absolute. */
  function Normalize(s: string): string
    requires !IsAbsolute(s)
  {
    if s == "" then "."
    else
      var kept := Join(Clean([], Split(s, '/')), '/');
      if kept == "" then if EndsWithSlash(s) then "./" else "."
      else if EndsWithSlash(s) then kept + "/" else kept
  }

  /** What `Clean` leaves: real segments, possibly after leading `..`. */
  ghost predicate IsClean(kept: seq<string>) {
    && (forall i :: 0 <= i < |kept| ==> kept[i] != "" && kept[i] != "." && '/' !in kept[i])
    && (forall i :: 0 < i < |kept| && kept[i] == ".." ==> kept[i - 1] == "..")
  }

  lemma {:induction false} CleanIsClean(kept: seq<string>, parts: seq<string>)
    requires IsClean(kept) && forall i :: 0 <= i < |parts| ==> '/' !in parts[i]
    ensures IsClean(Clean(kept, parts))
    decreases |parts|
  {
    if parts != [] {
      if parts[0] == "" || parts[0] == "." {
        CleanIsClean(kept, parts[1..]);
      } else if parts[0] == ".." && kept != [] && kept[|kept| - 1] != ".." {
        CleanIsClean(kept[..|kept| - 1], parts[1..]);
      } else {
        CleanIsClean(kept + [parts[0]], parts[1..]);
      }
    }
  }

  /** Reading a clean list keeps all of it, and a final empty part adds nothing. */
  lemma {:induction false} CleanAgain(kept: seq<string>, parts: seq<string>, last: seq<string>)
    requires IsClean(kept + parts) && (last == [] || last == [""])
    ensures Clean(kept, parts + last) == kept + parts
    decreases |parts|
  {
    if parts == [] {
      assert parts + last == last && kept + parts == kept;
      assert last != [] ==> last[1..] == [];
    } else {
      var first, rest := parts[0], parts[1..];
      assert (parts + last)[0] == first && (parts + last)[1..] == rest + last;
      assert kept + parts == kept + [first] + rest;
      assert (kept + parts)[|kept|] == first;
      if kept != [] {
        assert (kept + parts)[|kept| - 1] == kept[|kept| - 1];
      }
      CleanAgain(kept + [first], rest, last);
    }
  }

  lemma JoinedIsSplit(kept: seq<string>)
    requires IsClean(kept) && kept != []
    ensures Split(Join(kept, '/'), '/') == kept
    ensures Join(kept, '/') != "" && !IsAbsolute(Join(kept, '/')) && !EndsWithSlash(Join(kept, '/'))
  {
    SplitJoin(kept, '/');
    JoinEnds(kept);
  }

  lemma {:induction false} JoinEnds(kept: seq<string>)
    requires kept != [] && forall i :: 0 <= i < |kept| ==> kept[i] != "" && '/' !in kept[i]
    ensures var s := Join(kept, '/');
            s != "" && s[0] == kept[0][0] && s[|s| - 1] in kept[|kept| - 1]
  {
    if |kept| > 1 {
      JoinEnds(kept[1..]);
    }
  }

  /** The outcome of normalizing: the clean segments, and whether a slash follows. */
  lemma NormalizeForm(s: string)
    requires !IsAbsolute(s)
    ensures var kept := if s == "" then [] else Clean([], Split(s, '/'));
            && IsClean(kept)
            && Normalize(s) == (if kept == [] then "." else Join(kept, '/')) + (if EndsWithSlash(s) then "/" else "")
            && Normalize(s) != "" && !IsAbsolute(Normalize(s)) && (EndsWithSlash(Normalize(s)) <==> EndsWithSlash(s))
  {
    if s != "" {
      var kept := Clean([], Split(s, '/'));
      SplitParts(s, '/');
      CleanIsClean([], Split(s, '/'));
      if kept != [] {
        JoinedIsSplit(kept);
      }
      NormalizeOfKept(s, kept);
      WithSlash(if kept == [] then "." else Join(kept, '/'), EndsWithSlash(s));
    }
  }

  lemma NormalizeOfKept(s: string, kept: seq<string>)
    requires s != "" && !IsAbsolute(s) && kept == Clean([], Split(s, '/')) && (kept == [] || Join(kept, '/') != "")
    ensures Normalize(s) == (if kept == [] then "." else Join(kept, '/')) + (if EndsWithSlash(s) then "/" else "")
  {
  }

  lemma WithSlash(core: string, slash: bool)
    requires core != "" && !IsAbsolute(core) && !EndsWithSlash(core)
    ensures var whole := core + (if slash then "/" else "");
            whole != "" && !IsAbsolute(whole) && (EndsWithSlash(whole) <==> slash)
  {
  }

  /** Normalizing twice is normalizing once. */
  lemma NormalizeIsIdempotent(s: string)
    requires !IsAbsolute(s)
    ensures !IsAbsolute(Normalize(s)) && Normalize(Normalize(s)) == Normalize(s)
  {
    NormalizeForm(s);
    var kept := if s == "" then [] else Clean([], Split(s, '/'));
    var last := if EndsWithSlash(s) then [""] else [];
    NormalizeClean(kept, last, Normalize(s));
  }

  lemma SplitWithSlash(body: string, last: seq<string>, t: string)
    requires (last == [] && t == body) || (last == [""] && t == body + "/")
    ensures Split(t, '/') == Split(body, '/') + last
  {
    if last != [] {
      assert t == body + ['/'] + "";
      SplitAround(body, "", '/');
    }
  }

  /** Clean segments, with or without a slash after them, are their own normal form. */
  lemma NormalizeClean(kept: seq<string>, last: seq<string>, t: string)
    requires IsClean(kept) && (last == [] || last == [""])
    requires t == (if kept == [] then "." else Join(kept, '/')) + (if last == [] then "" else "/")
    ensures !IsAbsolute(t) && Normalize(t) == t
  {
    if kept == [] {
      SplitWhole(".", '/');
      assert last == [] ==> t == ".";
      SplitWithSlash(".", last, t);
      DotIsDropped(last);
    } else {
      JoinedIsSplit(kept);
      assert last == [] ==> t == Join(kept, '/');
      SplitWithSlash(Join(kept, '/'), last, t);
      CleanAgain([], kept, last);
      assert [] + kept == kept;
    }
  }

  lemma DotIsDropped(last: seq<string>)
    requires last == [] || last == [""]
    ensures Clean([], ["."] + last) == []
  {
    assert (["."] + last)[1..] == last;
    if last != [] {
      assert last[0] == "" && last[1..] == [];
    }
    assert Clean([], last) == [];
  }

  // ---- Object keys ---------------------------------------------------------------------------

  predicate IsAlnum(c: char) {
    'A' <= c <= 'Z' || 'a' <= c <= 'z' || '0' <= c <= '9'
  }

  predicate IsSafeKey(s: string) {
    1 <= |s| <= 1024 && IsAlnum(s[0]) && forall i :: 1 <= i < |s| ==> IsAlnum(s[i]) || s[i] in "._/-"
  }

  /** Ends in `.m3u8` in any case. */
  predicate IsPlaylist(s: string) {
    var n := |s|;
    n >= 5 && s[n - 5] == '.' && s[n - 4] in "mM" && s[n - 3] == '3' && s[n - 2] in "uU" && s[n - 1] == '8'
  }

  /** The position after the last slash. */
  function AfterLastSlash(s: string): (n: nat)
    ensures n <= |s| && (n > 0 ==> s[n - 1] == '/')
  {
    if s == "" then 0
    else if s[|s| - 1] == '/' then |s|
    else AfterLastSlash(s[..|s| - 1])
  }

  /** `posix.dirname` of a path that is neither absolute nor ends with a slash. */
  function Dirname(s: string): (d: string)
    requires s != "" && !IsAbsolute(s) && !EndsWithSlash(s)
    ensures d != "" && !IsAbsolute(d)
    ensures d == "." || (|d| < |s| && d + "/" <= s)
  {
    var n := AfterLastSlash(s);
    if n == 0 then "." else s[..n - 1]
  }

  function RootPrefix(master: string): string
    requires master != "" && !IsAbsolute(master) && !EndsWithSlash(master)
  {
    Dirname(master) + "/"
  }

  /** The text starts with a URL scheme. */
  predicate HasScheme(v: string) {
    exists i | 1 <= i < |v| :: SchemeEndsAt(v, i)
  }

  predicate SchemeEndsAt(v: string, i: nat) {
    && 1 <= i < |v| && v[i] == ':' && ('A' <= v[0] <= 'Z' || 'a' <= v[0] <= 'z')
    && forall j :: 1 <= j < i ==> IsAlnum(v[j]) || v[j] in "+.-"
  }

  predicate IsRelativeReference(v: string) {
    v != "" && '\\' !in v && '\0' !in v && '?' !in v && '#' !in v && !HasScheme(v) && v[0] != '/'
  }

  /** `posix.join` of a directory and a path below it. */
  function JoinPath(dir: string, path: string): string
    requires dir != "" && !IsAbsolute(dir)
  {
    Normalize(dir + "/" + path)
  }

  /** A key of a playlist that may be read: safe, and not a directory. */
  predicate IsPlaylistKey(key: string) {
    IsSafeKey(key) && IsPlaylist(key)
  }

  lemma PlaylistKeyIsFile(key: string)
    requires IsPlaylistKey(key)
    ensures key != "" && !IsAbsolute(key) && !EndsWithSlash(key)
  {
  }

  /** The object key that a playlist's reference names; None when it is refused. */
  function ResolveReference(master: string, current: string, reference: string): Option<string>
    requires IsPlaylistKey(master) && IsPlaylistKey(current)
  {
    PlaylistKeyIsFile(master);
    PlaylistKeyIsFile(current);
    var value := Trim(reference);
    if !IsRelativeReference(value) then None
    else
      NormalizeForm(Dirname(current) + "/" + value);
      var resolved := Normalize(JoinPath(Dirname(current), value));
      if !IsSafeKey(resolved) || !(RootPrefix(master) <= resolved) || EndsWithSlash(resolved) then None
      else Some(resolved)
  }

  /** The key that a playlist request names, given the path in its link; None when it is refused. */
  function RenderKey(lessonPrefix: string, master: string, path: Option<string>): Option<string> {
    if !IsPlaylistKey(master) || !(lessonPrefix <= master) then None
    else
      PlaylistKeyIsFile(master);
      var prefix := RootPrefix(master);
      NormalizeForm(prefix + "/" + if path.Some? then path.value else "");
      var key := if path.Some? && path.value != "" then Normalize(JoinPath(prefix, path.value)) else master;
      if IsPlaylistKey(key) && prefix <= key then Some(key) else None
  }

  // ---- What is accepted ----------------------------------------------------------------------

  /** Every segment stands for itself: no empty one, no `.`, no `..`. */
  ghost predicate IsCanonical(key: string) {
    forall i :: 0 <= i < |Split(key, '/')| ==> IsPlain(Split(key, '/')[i])
  }

  /** A clean list that does not start with `..` has only plain segments. */
  lemma {:induction false} NoParents(kept: seq<string>, n: nat)
    requires IsClean(kept) && kept != [] && kept[0] != ".." && n <= |kept|
    ensures forall i :: 0 <= i < n ==> IsPlain(kept[i])
  {
    if n > 0 {
      NoParents(kept, n - 1);
      if n > 1 {
        assert IsPlain(kept[(n - 1) - 1]);
      }
    }
  }

  lemma JoinedIsCanonical(kept: seq<string>, key: string)
    requires IsClean(kept) && kept != [] && key == Join(kept, '/') && key[0] != '.'
    ensures IsCanonical(key)
  {
    JoinedIsSplit(kept);
    JoinEnds(kept);
    NoParents(kept, |kept|);
  }

  /** A normalized key that starts with a letter or digit and does not end with a slash has only plain segments. */
  lemma NormalizedIsCanonical(s: string)
    requires !IsAbsolute(s) && IsSafeKey(Normalize(s)) && !EndsWithSlash(Normalize(s))
    ensures IsCanonical(Normalize(s))
  {
    NormalizeForm(s);
    var kept := if s == "" then [] else Clean([], Split(s, '/'));
    assert Normalize(s)[0] != '.';
    JoinedIsCanonical(kept, Normalize(s));
  }

  /** An accepted reference's key is what some relative path normalizes to, and has passed the key checks. */
  lemma ResolvedForm(master: string, current: string, reference: string) returns (joined: string)
    requires IsPlaylistKey(master) && IsPlaylistKey(current) && ResolveReference(master, current, reference).Some?
    ensures master != "" && !IsAbsolute(master) && !EndsWithSlash(master)
    ensures var key := ResolveReference(master, current, reference).value;
            && !IsAbsolute(joined) && key == Normalize(joined)
            && IsSafeKey(key) && RootPrefix(master) <= key && !EndsWithSlash(key)
  {
    PlaylistKeyIsFile(master);
    PlaylistKeyIsFile(current);
    NormalizeForm(Dirname(current) + "/" + Trim(reference));
    joined := JoinPath(Dirname(current), Trim(reference));
  }

  /** An accepted reference names a safe, normalized key inside the master playlist's directory. */
  lemma ResolvedIsInside(master: string, current: string, reference: string)
    requires IsPlaylistKey(master) && IsPlaylistKey(current) && ResolveReference(master, current, reference).Some?
    ensures var key := ResolveReference(master, current, reference).value;
            && IsSafeKey(key) && IsCanonical(key) && !EndsWithSlash(key)
            && master != "" && !IsAbsolute(master) && !EndsWithSlash(master)
            && RootPrefix(master) < key
  {
    var joined := ResolvedForm(master, current, reference);
    NormalizedIsCanonical(joined);
    assert EndsWithSlash(RootPrefix(master));
  }

  lemma {:induction false} CleanPlain(kept: seq<string>, parts: seq<string>)
    requires forall i :: 0 <= i < |parts| ==> IsPlain(parts[i])
    ensures Clean(kept, parts) == kept + parts
    decreases |parts|
  {
    if parts == [] {
      assert kept + parts == kept;
    } else {
      CleanPlain(kept + [parts[0]], parts[1..]);
      assert kept + [parts[0]] + parts[1..] == kept + parts;
    }
  }

  lemma {:induction false} CleanAppend(kept: seq<string>, a: seq<string>, b: seq<string>)
    ensures Clean(kept, a + b) == Clean(Clean(kept, a), b)
    decreases |a|
  {
    if a == [] {
      assert a + b == b;
    } else {
      assert (a + b)[1..] == a[1..] + b;
      if a[0] == "" || a[0] == "." {
        CleanAppend(kept, a[1..], b);
      } else if a[0] == ".." && kept != [] && kept[|kept| - 1] != ".." {
        CleanAppend(kept[..|kept| - 1], a[1..], b);
      } else {
        CleanAppend(kept + [a[0]], a[1..], b);
      }
    }
  }

  /** A canonical key is its own normal form. */
  lemma CanonicalIsFixed(key: string)
    requires IsCanonical(key)
    ensures key != "" && !IsAbsolute(key) && !EndsWithSlash(key) && Normalize(key) == key
  {
    var parts := Split(key, '/');
    JoinSplit(key, '/');
    SplitParts(key, '/');
    CleanPlain([], parts);
    JoinEnds(parts);
    assert [] + parts == parts;
  }

  lemma SegmentsNormalize(path: string, key: string)
    requires IsCanonical(key) && path != "" && !IsAbsolute(path) && !EndsWithSlash(path)
    requires Clean([], Split(path, '/')) == Split(key, '/')
    ensures Normalize(path) == key
  {
    JoinSplit(key, '/');
    SplitParts(key, '/');
    CanonicalIsFixed(key);
  }

  /** An empty segment between plain ones is dropped. */
  lemma EmptyBetween(a: seq<string>, b: seq<string>)
    requires forall i :: 0 <= i < |a + b| ==> IsPlain((a + b)[i])
    ensures Clean([], a + ([""] + b)) == a + b
  {
    assert forall i :: 0 <= i < |a| ==> (a + b)[i] == a[i];
    assert forall i :: 0 <= i < |b| ==> (a + b)[|a| + i] == b[i];
    CleanPlain([], a);
    assert [] + a == a;
    CleanAppend([], a, [""] + b);
    CleanPlain(a, b);
    assert ([""] + b)[1..] == b;
  }

  /** Joining a directory with what follows it in a canonical key gives the key back. */
  lemma JoinGivesBack(dir: string, rest: string, key: string)
    requires dir != "" && !IsAbsolute(dir) && key == dir + "/" + rest && IsCanonical(key)
    ensures JoinPath(dir + "/", rest) == key
  {
    SplitAround(dir, rest, '/');
    assert key == dir + ['/'] + rest;
    var path := dir + "/" + "/" + rest;
    DoubledSlash(dir, rest, path);
    EmptyBetween(Split(dir, '/'), Split(rest, '/'));
    CanonicalIsFixed(key);
    assert path[|path| - 1] == key[|key| - 1];
    SegmentsNormalize(path, key);
  }

  lemma DoubledSlash(dir: string, rest: string, path: string)
    requires path == dir + "/" + "/" + rest
    ensures Split(path, '/') == Split(dir, '/') + ([""] + Split(rest, '/'))
  {
    assert path == dir + ['/'] + ("" + ['/'] + rest);
    SplitAround(dir, "" + ['/'] + rest, '/');
    SplitAround("", rest, '/');
  }

  lemma BelowPrefix(dir: string, prefix: string, key: string)
    requires prefix == dir + "/" && prefix <= key && !EndsWithSlash(key)
    ensures key == dir + "/" + key[|prefix|..] && key[|prefix|..] != ""
  {
    assert key == prefix + key[|prefix|..];
  }

  /** A non-empty path that joins to a playlist key below the master's directory renders that key. */
  lemma RenderForm(lessonPrefix: string, master: string, path: string, key: string)
    requires IsPlaylistKey(master) && lessonPrefix <= master && path != "" && IsPlaylistKey(key)
    requires master != "" && !IsAbsolute(master) && !EndsWithSlash(master) && RootPrefix(master) <= key
    requires JoinPath(RootPrefix(master), path) == key && !IsAbsolute(key) && Normalize(key) == key
    ensures RenderKey(lessonPrefix, master, Some(path)) == Some(key)
  {
  }

  /** Round trip: the path of every playlist link that a rewrite emits is accepted again and names the same key. */
  lemma LinkRoundTrip(lessonPrefix: string, master: string, current: string, reference: string, key: string)
    requires IsPlaylistKey(master) && IsPlaylistKey(current) && lessonPrefix <= master
    requires ResolveReference(master, current, reference) == Some(key) && IsPlaylist(key)
    ensures master != "" && !IsAbsolute(master) && !EndsWithSlash(master) && RootPrefix(master) <= key
    ensures RenderKey(lessonPrefix, master, Some(key[|RootPrefix(master)|..])) == Some(key)
  {
    ResolvedIsInside(master, current, reference);
    var dir, prefix := Dirname(master), RootPrefix(master);
    var rest := key[|prefix|..];
    BelowPrefix(dir, prefix, key);
    JoinGivesBack(dir, rest, key);
    CanonicalIsFixed(key);
    RenderForm(lessonPrefix, master, rest, key);
  }

  // ---- Exactly what is accepted --------------------------------------------------------------

  ghost predicate AllPlain(parts: seq<string>) {
    forall i :: 0 <= i < |parts| ==> IsPlain(parts[i])
  }

  /** A leading `..` stays. */
  lemma {:induction false} CleanKeepsParent(kept: seq<string>, parts: seq<string>)
    requires kept != [] && kept[0] == ".." && IsClean(kept) && forall i :: 0 <= i < |parts| ==> '/' !in parts[i]
    ensures var cleaned := Clean(kept, parts); cleaned != [] && cleaned[0] == ".."
    decreases |parts|
  {
    if parts != [] {
      if parts[0] == "" || parts[0] == "." {
        CleanKeepsParent(kept, parts[1..]);
      } else if parts[0] == ".." && kept[|kept| - 1] != ".." {
        CleanKeepsParent(kept[..|kept| - 1], parts[1..]);
      } else {
        CleanKeepsParent(kept + [parts[0]], parts[1..]);
      }
    }
  }

  /** Cleaning is walking: the kept segments are where the path leads, unless it climbs out. */
  lemma {:induction false} CleanIsWalk(kept: seq<string>, parts: seq<string>)
    requires AllPlain(kept) && forall i :: 0 <= i < |parts| ==> '/' !in parts[i]
    ensures match Resolve(kept, parts)
            case Some(end) => Clean(kept, parts) == end && AllPlain(end)
            case None => Clean(kept, parts) != [] && Clean(kept, parts)[0] == ".."
    decreases |parts|
  {
    if parts != [] {
      if parts[0] == "" || parts[0] == "." {
        CleanIsWalk(kept, parts[1..]);
      } else if parts[0] == ".." {
        if kept == [] {
          assert kept + [parts[0]] == [".."];
          CleanKeepsParent([".."], parts[1..]);
        } else {
          assert IsPlain(kept[|kept| - 1]);
          CleanIsWalk(kept[..|kept| - 1], parts[1..]);
        }
      } else {
        CleanIsWalk(kept + [parts[0]], parts[1..]);
      }
    }
  }

  /** 1 to 1024 letters, digits, dots, underscores, slashes and hyphens, the first a letter or digit. */
  ghost predicate IsKey(s: string) {
    && 1 <= |s| <= 1024 && s[0] !in "._/-"
    && forall i :: 0 <= i < |s| ==>
         'a' <= s[i] <= 'z' || 'A' <= s[i] <= 'Z' || '0' <= s[i] <= '9' || s[i] in "._/-"
  }

  lemma KeysAreExact(s: string)
    ensures IsSafeKey(s) <==> IsKey(s)
    ensures IsPlaylist(s) <==> |s| >= 5 && s[|s| - 5..] in {".m3u8", ".M3u8", ".m3U8", ".M3U8"}
  {
    if |s| >= 5 {
      var end := s[|s| - 5..];
      assert end == [s[|s| - 5], s[|s| - 4], s[|s| - 3], s[|s| - 2], s[|s| - 1]];
    }
  }

  /** A normalized path that is a key and does not end with a slash is where the path leads from the root. */
  lemma NormalizedIsWalk(path: string, key: string)
    requires path != "" && !IsAbsolute(path)
    ensures Normalize(path) == key && IsKey(key) && !EndsWithSlash(key) <==>
              && IsKey(key) && !EndsWithSlash(path)
              && Resolve([], Split(path, '/')).Some? && Resolve([], Split(path, '/')).value != []
              && key == Join(Resolve([], Split(path, '/')).value, '/')
  {
    var kept := Clean([], Split(path, '/'));
    SplitParts(path, '/');
    CleanIsWalk([], Split(path, '/'));
    NormalizeForm(path);
    if kept != [] {
      JoinedIsSplit(kept);
      JoinEnds(kept);
    }
  }

  /** A reference as it has to be before it is resolved: trimmed, relative, without query, fragment, backslash, null
      character or scheme. */
  ghost predicate IsReference(value: string) {
    && value != "" && value[0] != '/' && '?' !in value && '#' !in value && '\\' !in value && '\0' !in value
    && forall i :: 1 <= i < |value| && value[i] == ':' && ('a' <= value[0] <= 'z' || 'A' <= value[0] <= 'Z') ==>
         exists j :: 1 <= j < i && !IsSchemeChar(value[j])
  }

  predicate IsSchemeChar(c: char) {
    'a' <= c <= 'z' || 'A' <= c <= 'Z' || '0' <= c <= '9' || c == '+' || c == '.' || c == '-'
  }

  lemma ReferencesAreExact(value: string)
    ensures IsRelativeReference(value) <==> IsReference(value)
  {
    forall i | 1 <= i < |value|
      ensures SchemeEndsAt(value, i) <==>
                value[i] == ':' && ('a' <= value[0] <= 'z' || 'A' <= value[0] <= 'Z')
                && !exists j :: 1 <= j < i && !IsSchemeChar(value[j])
    {
    }
  }

  /** What a directory is: all of the path before its last slash, `.` when it has none. */
  lemma DirnameIsExact(path: string, dir: string, file: string)
    requires path != "" && !IsAbsolute(path) && !EndsWithSlash(path) && '/' !in file
    ensures path == dir + "/" + file ==> Dirname(path) == dir
    ensures '/' !in path ==> Dirname(path) == "."
  {
    LastSlash(path);
    if path == dir + "/" + file {
      assert path[|dir|] == '/' && forall i :: |dir| < i < |path| ==> path[i] == file[i - |dir| - 1];
      assert AfterLastSlash(path) == |dir| + 1;
      assert path[..|dir|] == dir;
    }
  }

  lemma {:induction false} LastSlash(s: string)
    ensures forall i :: AfterLastSlash(s) <= i < |s| ==> s[i] != '/'
    ensures AfterLastSlash(s) > 0 ==> s[AfterLastSlash(s) - 1] == '/'
    decreases |s|
  {
    if s != "" && s[|s| - 1] != '/' {
      LastSlash(s[..|s| - 1]);
    }
  }

  /** A reference resolves to a key exactly when, walked from the directory of its playlist, it leads to that key,
      the key is a safe one below the directory of the master playlist, and the reference names no directory. */
  lemma ResolveIsExact(master: string, current: string, reference: string, key: string)
    requires IsPlaylistKey(master) && IsPlaylistKey(current)
    ensures master != "" && !IsAbsolute(master) && !EndsWithSlash(master)
    ensures current != "" && !IsAbsolute(current) && !EndsWithSlash(current)
    ensures ResolveReference(master, current, reference) == Some(key) <==>
              var value := Trim(reference);
              && IsReference(value) && value[|value| - 1] != '/' && IsKey(key) && Dirname(master) + "/" <= key
              && (match Resolve([], Split(Dirname(current), '/') + Split(value, '/'))
                  case None => false
                  case Some(parts) => parts != [] && key == Join(parts, '/'))
  {
    PlaylistKeyIsFile(master);
    PlaylistKeyIsFile(current);
    var dir, value := Dirname(current), Trim(reference);
    ReferencesAreExact(value);
    KeysAreExact(key);
    if IsReference(value) {
      var path := dir + "/" + value;
      assert path == dir + ['/'] + value && EndsWithSlash(path) == EndsWithSlash(value);
      SplitAround(dir, value, '/');
      NormalizeIsIdempotent(path);
      NormalizedIsWalk(path, key);
      KeysAreExact(Normalize(path));
    }
  }

  lemma WholePath(dir: string, path: string)
    requires path != ""
    ensures var whole := dir + "/" + "/" + path;
            && EndsWithSlash(whole) == EndsWithSlash(path)
            && Resolve([], Split(whole, '/')) == Resolve([], Split(dir, '/') + Split(path, '/'))
  {
    assert dir + "/" + "/" + path == dir + ['/'] + ("" + ['/'] + path);
    SplitAround(dir, "" + ['/'] + path, '/');
    SplitAround("", path, '/');
    SkipsEmpty(Split(dir, '/'), Split(path, '/'));
  }

  /** Where the path of a playlist request leads from the master's directory. */
  lemma PathIsWalked(dir: string, path: string, key: string)
    requires dir != "" && !IsAbsolute(dir) && path != "" && IsPlaylistKey(key)
    ensures Normalize(dir + "/" + "/" + path) == key <==>
            match Resolve([], Split(dir, '/') + Split(path, '/'))
            case None => false
            case Some(parts) => path[|path| - 1] != '/' && parts != [] && key == Join(parts, '/')
  {
    var whole := dir + "/" + "/" + path;
    WholePath(dir, path);
    PlaylistKeyIsFile(key);
    KeysAreExact(key);
    NormalizedIsWalk(whole, key);
  }

  /** A playlist request is answered for a key exactly when the master is a playlist key of the lesson, the path in the
      request leads from the master's directory to the key, or is empty and the key is the master, and the key is a
      playlist key below that directory. */
  lemma RenderIsExact(lessonPrefix: string, master: string, path: string, key: string)
    requires IsPlaylistKey(master)
    ensures master != "" && !IsAbsolute(master) && !EndsWithSlash(master)
    ensures RenderKey(lessonPrefix, master, Some(path)) == Some(key) <==>
              && lessonPrefix <= master && IsPlaylistKey(key) && Dirname(master) + "/" <= key
              && if path == "" then key == master
                 else match Resolve([], Split(Dirname(master), '/') + Split(path, '/'))
                      case None => false
                      case Some(parts) => path[|path| - 1] != '/' && parts != [] && key == Join(parts, '/')
    ensures RenderKey(lessonPrefix, master, None) == RenderKey(lessonPrefix, master, Some(""))
  {
    PlaylistKeyIsFile(master);
    if path != "" {
      NormalizeIsIdempotent(Dirname(master) + "/" + "/" + path);
      if IsPlaylistKey(key) {
        PathIsWalked(Dirname(master), path, key);
      }
    }
  }

  lemma SkipsEmpty(a: seq<string>, b: seq<string>)
    ensures Resolve([], a + (Split("", '/') + b)) == Resolve([], a + b)
  {
    ResolveAppend([], a, [""] + b);
    ResolveAppend([], a, b);
    assert ([""] + b)[1..] == b;
  }
}
