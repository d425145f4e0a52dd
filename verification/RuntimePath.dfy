/** The key under which the daemon compares paths of all its hosts. */
module RuntimePath {
  import opened Text

  predicate IsDrivePrefix(path: string) {
    |path| >= 3 && IsAsciiAlphabetic(path[0]) && path[1] == ':' && (path[2] == '/' || path[2] == '\\')
  }

  predicate IsWindowsAbsolute(path: string) {
    IsDrivePrefix(path) || "\\\\" <= path || "//" <= path
  }

  predicate IsWindowsDriveRoot(path: string) {
    |path| == 3 && IsAsciiAlphabetic(path[0]) && path[1] == ':' && path[2] == '/'
  }

  /** The characters of a path with every run of slashes reduced to one. */
  function Squeezed(s: string, previousWasSlash: bool): string {
    if s == [] then []
    else if s[0] == '/' then (if previousWasSlash then [] else "/") + Squeezed(s[1..], true)
    else [s[0]] + Squeezed(s[1..], false)
  }

  function Collapsed(path: string): string {
    var squeezed := Squeezed(path, false);
    if "//" <= path && !("//" <= squeezed) then "/" + squeezed else squeezed
  }

  function TrimSlashes(s: string): string {
    if s != [] && s[|s| - 1] == '/' then TrimSlashes(s[..|s| - 1]) else s
  }

  predicate IsDrvfsSuffix(suffix: string) {
    var remainder := StripPrefix(suffix, "mnt/");
    remainder.Some? && remainder.value != [] && IsAsciiAlphabetic(remainder.value[0])
    && (|remainder.value| == 1 || remainder.value[1] == '/')
  }

  const WSL_SERVER := "wsl.localhost"

  predicate IsWslServer(server: string) {
    ToAsciiLower(server) == WSL_SERVER || ToAsciiLower(server) == "wsl$"
  }

  function WslSuffix(suffix: string): string {
    if IsDrvfsSuffix(suffix) then ToAsciiLower(suffix) else suffix
  }

  /** What follows the server in the form of a path into a WSL distribution. */
  function WslTail(rest: string): string {
    var (distribution, suffix) := SplitOnce(rest, '/').GetOr((rest, ""));
    ToAsciiLower(distribution) + if WslSuffix(suffix) == [] then "" else "/" + WslSuffix(suffix)
  }

  function WslPath(rest: string): string {
    "//" + (WSL_SERVER + "/" + WslTail(rest))
  }

  function NormalizedWsl(path: string): Option<string> {
    var remainder :- StripPrefix(path, "//");
    var (server, rest) :- SplitOnce(remainder, '/');
    if IsWslServer(server) then Some(WslPath(rest)) else None
  }

  /** The path with its slashes put in order, before any folding of case. */
  function Straightened(path: string): string {
    var collapsed := Collapsed(if IsWindowsAbsolute(path) then Replace(path, '\\', "/") else path);
    if collapsed != "/" && !IsWindowsDriveRoot(collapsed) then TrimSlashes(collapsed) else collapsed
  }

  function Key(path: string): string {
    var straight := Straightened(path);
    match NormalizedWsl(straight)
    case Some(wsl) => wsl
    case None => if IsWindowsAbsolute(path) then ToAsciiLower(straight) else straight
  }

  predicate Equal(left: string, right: string) {
    Key(left) == Key(right)
  }

  // ---- The code ----

  method CollapseSlashes(path: string) returns (normalized: string)
    ensures normalized == Collapsed(path)
  {
    hide Squeezed;
    var isUnc := "//" <= path;
    normalized := "";
    var previousWasSlash := false;
    for i := 0 to |path|
      invariant normalized + Squeezed(path[i..], previousWasSlash) == Squeezed(path, false)
    {
      SqueezeStep(normalized, path[i..], previousWasSlash);
      assert path[i..][0] == path[i] && path[i..][1..] == path[i + 1..];
      if path[i] == '/' {
        if !previousWasSlash {
          normalized := normalized + [path[i]];
        }
        previousWasSlash := true;
      } else {
        normalized := normalized + [path[i]];
        previousWasSlash := false;
      }
    }
    SqueezeEnd(normalized, path[|path|..], previousWasSlash);
    if isUnc && !("//" <= normalized) {
      normalized := "/" + normalized;
    }
  }

  lemma SqueezeStep(done: string, s: string, previousWasSlash: bool)
    requires s != []
    ensures done + Squeezed(s, previousWasSlash)
      == (if s[0] == '/' && previousWasSlash then done else done + [s[0]]) + Squeezed(s[1..], s[0] == '/')
  {
    var piece := if s[0] == '/' && previousWasSlash then [] else [s[0]];
    assert Squeezed(s, previousWasSlash) == piece + Squeezed(s[1..], s[0] == '/');
    hide Squeezed;
    Assoc(done, piece, Squeezed(s[1..], s[0] == '/'));
    assert done + [] == done;
  }

  lemma SqueezeEnd(done: string, s: string, previousWasSlash: bool)
    requires s == []
    ensures done + Squeezed(s, previousWasSlash) == done
  {
  }

  method ComparisonKey(path: string) returns (key: string)
    ensures key == Key(path)
  {
    var isWindows := IsWindowsAbsolute(path);
    var normalized := CollapseSlashes(if isWindows then Replace(path, '\\', "/") else path);
    if normalized != "/" && !IsWindowsDriveRoot(normalized) {
      TrimSlashesIsPrefix(normalized);
      normalized := normalized[..|TrimSlashes(normalized)|];
    }
    assert normalized == Straightened(path);
    var wsl := NormalizedWsl(normalized);
    if wsl.Some? {
      return wsl.value;
    }
    key := if isWindows then ToAsciiLower(normalized) else normalized;
  }

  // ---- Slashes ----

  predicate NoDouble(s: string) {
    forall i :: 0 <= i < |s| - 1 ==> s[i] != '/' || s[i + 1] != '/'
  }

  lemma {:induction false} TrimSlashesIsPrefix(s: string)
    ensures TrimSlashes(s) <= s && (TrimSlashes(s) != [] ==> TrimSlashes(s)[|TrimSlashes(s)| - 1] != '/')
    ensures s == [] || s[|s| - 1] != '/' ==> TrimSlashes(s) == s
    decreases |s|
  {
    if s != [] && s[|s| - 1] == '/' { TrimSlashesIsPrefix(s[..|s| - 1]); }
  }

  lemma {:induction false} SqueezedHasNoDouble(s: string, previousWasSlash: bool)
    ensures NoDouble(Squeezed(s, previousWasSlash))
    ensures previousWasSlash ==> !("/" <= Squeezed(s, previousWasSlash))
    decreases s
  {
    if s != [] {
      SqueezedHasNoDouble(s[1..], s[0] == '/');
      NoDoubleAfter(s[0], Squeezed(s[1..], s[0] == '/'));
      SqueezeStep([], s, previousWasSlash);
      assert s[0] != '/' ==> Squeezed(s, previousWasSlash)[0] == s[0];
      var rest := Squeezed(s[1..], s[0] == '/');
      assert [] + Squeezed(s, previousWasSlash) == Squeezed(s, previousWasSlash) && [] + rest == rest;
    }
  }

  lemma NoDoubleAfter(c: char, rest: string)
    requires NoDouble(rest) && (c == '/' ==> !("/" <= rest))
    ensures NoDouble([c] + rest)
  {
    assert rest != [] && rest[0] == '/' ==> "/" <= rest;
  }

  lemma NoDoubleTail(s: string)
    requires NoDouble(s) && s != []
    ensures NoDouble(s[1..])
  {
    forall i | 0 <= i < |s[1..]| - 1 ensures s[1..][i] != '/' || s[1..][i + 1] != '/' {
      assert s[1..][i] == s[i + 1];
    }
  }

  /** A path without doubled slashes has nothing to squeeze. */
  lemma {:induction false} SqueezedIsStable(s: string, previousWasSlash: bool)
    requires NoDouble(s) && (previousWasSlash ==> !("/" <= s))
    ensures Squeezed(s, previousWasSlash) == s
    decreases s
  {
    if s != [] {
      assert s[0] == '/' ==> "/" <= s;
      assert s[0] == '/' && s[1..] != [] ==> s[1..][0] != '/';
      NoDoubleTail(s);
      SqueezedIsStable(s[1..], s[0] == '/');
    }
  }

  /** Squeezing keeps the first characters while they hold no doubled slash, and adds none. */
  lemma {:induction false} SqueezedKeeps(s: string, previousWasSlash: bool, c: char)
    requires c !in s
    ensures c !in Squeezed(s, previousWasSlash)
    decreases s
  {
    if s != [] {
      assert s[0] in s && forall d <- s[1..] :: d in s;
      SqueezedKeeps(s[1..], s[0] == '/', c);
    }
  }

  lemma {:induction false} Replaced(s: string)
    ensures '\\' !in Replace(s, '\\', "/") && |Replace(s, '\\', "/")| == |s|
    ensures forall i :: 0 <= i < |s| ==> Replace(s, '\\', "/")[i] == if s[i] == '\\' then '/' else s[i]
  {
    if s != [] { Replaced(s[1..]); }
  }

  lemma {:induction false} ReplaceNothing(s: string)
    requires '\\' !in s
    ensures Replace(s, '\\', "/") == s
  {
    if s != [] {
      assert s[0] in s && forall d <- s[1..] :: d in s;
      ReplaceNothing(s[1..]);
    }
  }

  // ---- The normal form ----

  /** What follows the two slashes of a network path in normal form. */
  predicate IsRest(r: string) {
    r != [] && r[0] != '/' && r[|r| - 1] != '/' && '\\' !in r && NoDouble(r)
  }

  /** The keys: a path that is not a Windows path without doubled or trailing slashes, a drive path
      in lower case, or a network path, in lower case unless it leads into a WSL distribution. */
  predicate IsNormal(key: string) {
    if !IsWindowsAbsolute(key) then
      NoDouble(key) && (key == "/" || TrimSlashes(key) == key)
    else if IsDrivePrefix(key) then
      '\\' !in key && NoDouble(key) && (IsWindowsDriveRoot(key) || TrimSlashes(key) == key) && ToAsciiLower(key) == key
    else
      "//" <= key && IsRest(key[2..])
      && (NormalizedWsl(key) == Some(key) || (NormalizedWsl(key) == None && ToAsciiLower(key) == key))
  }

  lemma {:induction false} TrimSlashesBehind(front: string, s: string)
    requires s != [] && s[0] != '/'
    ensures TrimSlashes(s) != [] && TrimSlashes(s)[0] == s[0]
    ensures TrimSlashes(front + s) == front + TrimSlashes(s)
    decreases |s|
  {
    if s[|s| - 1] == '/' {
      assert (front + s)[..|front + s| - 1] == front + s[..|s| - 1];
      TrimSlashesBehind(front, s[..|s| - 1]);
    }
  }

  lemma NoDoublePrefix(s: string, t: string)
    requires NoDouble(t) && s <= t
    ensures NoDouble(s)
  {
    assert forall i :: 0 <= i < |s| ==> s[i] == t[i];
  }

  /** The straight form of a network path: two slashes and the squeezed rest, or nothing. */
  lemma NetworkStraight(path: string)
    requires IsWindowsAbsolute(path) && !IsDrivePrefix(path)
    ensures |Replace(path, '\\', "/")| >= 2
    ensures var rest := Squeezed(Replace(path, '\\', "/")[2..], true);
      && Straightened(path) == (if rest == [] then "" else "//" + TrimSlashes(rest))
      && (rest != [] ==> IsRest(TrimSlashes(rest)))
  {
    hide Squeezed, Replace, Collapsed, TrimSlashes, NoDouble;
    Replaced(path);
    var s := Replace(path, '\\', "/");
    var rest := Squeezed(s[2..], true);
    assert s[2..] <= s[2..] && (forall c <- s[2..] :: c in s);
    SqueezedHasNoDouble(s[2..], true);
    SqueezedKeeps(s[2..], true, '\\');
    NetworkCollapsed(s);
    TrimTwoSlashes();
    if rest == [] {
      assert "//" + rest == "//";
    } else {
      assert rest[0] == '/' ==> "/" <= rest;
      TrimSlashesBehind("//", rest);
      TrimSlashesIsPrefix(rest);
      NoDoublePrefix(TrimSlashes(rest), rest);
      assert forall c <- TrimSlashes(rest) :: c in rest;
    }
  }

  lemma TrimTwoSlashes()
    ensures TrimSlashes("//") == ""
  {
    assert "//"[..1] == "/" && "/"[..0] == "";
  }

  lemma PrefixTail(rest: string)
    ensures "//" <= "/" + rest ==> "/" <= rest
  {
    if "//" <= "/" + rest {
      assert ("/" + rest)[1..] == rest && ("/" + rest)[1] == '/';
    }
  }

  lemma NetworkCollapsed(s: string)
    requires "//" <= s
    ensures Collapsed(s) == "//" + Squeezed(s[2..], true)
  {
    var rest := Squeezed(s[2..], true);
    SqueezedHasNoDouble(s[2..], true);
    NetworkSqueezed(s);
    PrefixTail(rest);
    hide Squeezed;
    Assoc("/", "/", rest);
    assert "/" + "/" == "//";
  }

  lemma NetworkSqueezed(s: string)
    requires "//" <= s
    ensures Squeezed(s, false) == "/" + Squeezed(s[2..], true)
  {
    var rest := Squeezed(s[2..], true);
    assert s[0] == '/' && s[1] == '/' && s[1..][1..] == s[2..];
    SqueezeStep([], s[1..], true);
    assert Squeezed(s, false) == "/" + Squeezed(s[1..], true);
    hide Squeezed;
    assert [] + Squeezed(s[1..], true) == Squeezed(s[1..], true) && [] + rest == rest;
  }

  // ---- The WSL form ----

  lemma LowerIsStable(s: string)
    ensures ToAsciiLower(ToAsciiLower(s)) == ToAsciiLower(s)
  {
  }

  /** A text of the same length with its slashes and backslashes in the same places. */
  predicate SameSlashes(s: string, t: string) {
    |s| == |t| && forall i :: 0 <= i < |s| ==> (s[i] == '/' <==> t[i] == '/') && (s[i] == '\\' <==> t[i] == '\\')
  }

  lemma SameSlashesRest(s: string, t: string)
    requires SameSlashes(s, t) && IsRest(s)
    ensures IsRest(t)
  {
    forall i | 0 <= i < |t| ensures t[i] != '\\' {
      assert s[i] in s;
    }
  }

  lemma TailParts(rest: string)
    requires IsRest(rest)
    ensures '/' !in rest ==> WslTail(rest) == ToAsciiLower(rest)
    ensures '/' in rest ==> exists d, x ::
      '/' !in d && x != [] && rest == d + "/" + x && WslTail(rest) == ToAsciiLower(d) + "/" + WslSuffix(x)
  {
    SplitOnceParts(rest, '/');
    hide SplitOnce, IsDrvfsSuffix;
    if '/' in rest {
      var (d, x) := SplitOnce(rest, '/').value;
      assert rest == d + "/" + x && x != [];
      Assoc(ToAsciiLower(d), "/", WslSuffix(x));
    } else {
      assert ToAsciiLower(rest) + "" == ToAsciiLower(rest);
      EmptySuffix();
    }
  }

  lemma EmptySuffix()
    ensures WslSuffix("") == ""
  {
  }

  lemma SuffixIsStable(x: string)
    ensures WslSuffix(WslSuffix(x)) == WslSuffix(x) && SameSlashes(x, WslSuffix(x))
  {
    if IsDrvfsSuffix(x) {
      var y := ToAsciiLower(x);
      assert y[..4] == "mnt/";
      assert "mnt/" <= y && y[4..][0] == AsciiLower(x[4..][0]);
      assert |x| > 5 ==> y[4..][1] == AsciiLower(x[4..][1]);
      LowerIsStable(x);
    }
  }

  lemma TailIsStable(rest: string)
    requires IsRest(rest)
    ensures SameSlashes(rest, WslTail(rest)) && WslTail(WslTail(rest)) == WslTail(rest)
  {
    TailParts(rest);
    hide WslTail, WslSuffix, IsRest;
    if '/' !in rest {
      PlainTailIsStable(rest);
    } else {
      var d, x :| '/' !in d && x != [] && rest == d + "/" + x && WslTail(rest) == ToAsciiLower(d) + "/" + WslSuffix(x);
      JoinedTailIsStable(d, x);
    }
  }

  lemma PlainTailIsStable(rest: string)
    requires IsRest(rest) && '/' !in rest
    ensures SameSlashes(rest, ToAsciiLower(rest)) && WslTail(ToAsciiLower(rest)) == ToAsciiLower(rest)
  {
    LowerIsStable(rest);
    assert forall i :: 0 <= i < |rest| ==> rest[i] in rest;
    SameSlashesRest(rest, ToAsciiLower(rest));
    hide WslTail, IsRest;
    TailParts(ToAsciiLower(rest));
  }

  lemma JoinedTailIsStable(d: string, x: string)
    requires '/' !in d && x != []
    ensures var tail := ToAsciiLower(d) + "/" + WslSuffix(x);
      SameSlashes(d + "/" + x, tail) && WslTail(tail) == tail
  {
    SuffixIsStable(x);
    LowerIsStable(d);
    hide WslSuffix, WslTail;
    JoinedSlashes(d, x, ToAsciiLower(d), WslSuffix(x));
    TailOfJoined(ToAsciiLower(d), WslSuffix(x));
  }

  lemma JoinedSlashes(d: string, x: string, e: string, y: string)
    requires SameSlashes(d, e) && SameSlashes(x, y)
    ensures SameSlashes(d + "/" + x, e + "/" + y)
    ensures '/' !in d ==> '/' !in e
  {
    var s, t := d + "/" + x, e + "/" + y;
    forall i | 0 <= i < |s| ensures (s[i] == '/' <==> t[i] == '/') && (s[i] == '\\' <==> t[i] == '\\') {
      if i > |d| { assert s[i] == x[i - |d| - 1] && t[i] == y[i - |d| - 1]; }
    }
    assert forall i :: 0 <= i < |e| && e[i] == '/' ==> d[i] in d && d[i] == '/';
  }

  lemma TailOfJoined(d: string, x: string)
    requires '/' !in d && WslSuffix(x) != []
    ensures WslTail(d + "/" + x) == ToAsciiLower(d) + "/" + WslSuffix(x)
  {
    SplitAt(d, '/', x);
    hide SplitOnce, WslSuffix;
    Assoc(ToAsciiLower(d), "/", WslSuffix(x));
  }

  /** The form of a path into a WSL distribution is its own form. */
  lemma WslIsFixed(rest: string)
    requires IsRest(rest)
    ensures var w := WslPath(rest);
      "//" <= w && NormalizedWsl(w) == Some(w) && IsRest(w[2..])
  {
    var tail := WslTail(rest);
    TailIsStable(rest);
    SameSlashesRest(rest, tail);
    ServerIsPlain();
    hide WslTail, WSL_SERVER, IsRest, IsWslServer, NormalizedWsl, SameSlashes;
    WslNamed(WSL_SERVER, tail);
    RestBehind(WSL_SERVER, tail);
    StripPrefixOf("//", WSL_SERVER + "/" + tail);
  }

  lemma ServerIsPlain()
    ensures WSL_SERVER != [] && '/' !in WSL_SERVER && '\\' !in WSL_SERVER && IsWslServer(WSL_SERVER)
  {
    assert ToAsciiLower(WSL_SERVER) == WSL_SERVER;
  }

  lemma WslNamed(server: string, rest: string)
    requires '/' !in server
    ensures NormalizedWsl("//" + (server + "/" + rest))
      == if IsWslServer(server) then Some(WslPath(rest)) else None
  {
    hide WslTail, SplitOnce, IsWslServer;
    StripPrefixOf("//", server + "/" + rest);
    SplitAt(server, '/', rest);
  }

  lemma RestBehind(server: string, tail: string)
    requires server != [] && '/' !in server && '\\' !in server && IsRest(tail)
    ensures IsRest(server + "/" + tail)
  {
    var s := server + "/" + tail;
    forall i | 0 <= i < |s| - 1 ensures s[i] != '/' || s[i + 1] != '/' {
      if i > |server| {
        assert s[i] == tail[i - |server| - 1] && s[i + 1] == tail[i - |server|];
      }
    }
    assert server[0] in server && s[0] == server[0];
  }

  lemma RestOfRest(server: string, tail: string)
    requires IsRest(server + "/" + tail)
    ensures IsRest(tail)
  {
    var s := server + "/" + tail;
    assert forall i :: 0 <= i < |tail| ==> tail[i] == s[|server| + 1 + i];
    forall i | 0 <= i < |tail| - 1 ensures tail[i] != '/' || tail[i + 1] != '/' {
      assert s[|server| + 1 + i] == tail[i] && s[|server| + 2 + i] == tail[i + 1];
    }
    assert s[|server|] == '/' && s[|s| - 1] != '/';
    assert forall c <- tail :: c in s;
  }

  // ---- Keys are normal ----

  lemma NetworkKeyIsNormal(path: string)
    requires IsWindowsAbsolute(path) && !IsDrivePrefix(path)
    ensures IsNormal(Key(path))
  {
    NetworkStraight(path);
    var straight := Straightened(path);
    hide Straightened, IsRest, TrimSlashes, NormalizedWsl, WslPath;
    if straight == "" {
      EmptyIsPlain();
    } else {
      var rest := straight[2..];
      assert straight == "//" + rest;
      if NormalizedWsl(straight).Some? {
        WslKey(rest);
        NetworkIsNoDrive(Key(path));
      } else {
        LowerNetwork(rest);
        NetworkIsNoDrive(ToAsciiLower(straight));
      }
    }
  }

  lemma EmptyIsPlain()
    ensures NormalizedWsl("") == None && ToAsciiLower("") == "" && IsNormal("")
  {
  }

  lemma NetworkIsNoDrive(path: string)
    requires "//" <= path
    ensures IsWindowsAbsolute(path) && !IsDrivePrefix(path)
  {
    assert path[0] == '/';
  }

  lemma WslKey(rest: string)
    requires IsRest(rest) && NormalizedWsl("//" + rest).Some?
    ensures var w := NormalizedWsl("//" + rest).value; "//" <= w && IsRest(w[2..]) && NormalizedWsl(w) == Some(w)
  {
    StripPrefixOf("//", rest);
    SplitOnceParts(rest, '/');
    var (server, tail) := SplitOnce(rest, '/').value;
    hide IsRest, SplitOnce, WslPath;
    RestOfRest(server, tail);
    WslIsFixed(tail);
  }

  lemma LowerNetwork(rest: string)
    requires IsRest(rest) && NormalizedWsl("//" + rest) == None
    ensures var low := ToAsciiLower("//" + rest);
      "//" <= low && IsRest(low[2..]) && NormalizedWsl(low) == None && ToAsciiLower(low) == low
  {
    LowerIsStable("//" + rest);
    LowerBehind("//", rest);
    LowerIsNoWsl(rest);
    hide NormalizedWsl;
    assert ToAsciiLower("//") == "//";
    StripPrefixOf("//", ToAsciiLower(rest));
    LowerSlashes(rest);
    hide IsRest;
  }

  lemma LowerSlashes(rest: string)
    requires IsRest(rest)
    ensures IsRest(ToAsciiLower(rest))
  {
    SameSlashesRest(rest, ToAsciiLower(rest));
  }

  lemma LowerBehind(front: string, rest: string)
    ensures ToAsciiLower(front + rest) == ToAsciiLower(front) + ToAsciiLower(rest)
  {
  }

  lemma LowerIsNoWsl(rest: string)
    requires NormalizedWsl("//" + rest) == None
    ensures NormalizedWsl("//" + ToAsciiLower(rest)) == None
  {
    var low := ToAsciiLower(rest);
    SplitOnceParts(rest, '/');
    hide SplitOnce, WslPath;
    StripPrefixOf("//", rest);
    StripPrefixOf("//", low);
    if '/' !in rest {
      assert forall i :: 0 <= i < |low| ==> rest[i] in rest;
      SplitOnceParts(low, '/');
    } else {
      var (server, tail) := SplitOnce(rest, '/').value;
      LowerBehind(server + "/", tail);
      LowerBehind(server, "/");
      assert ToAsciiLower("/") == "/";
      assert low == ToAsciiLower(server) + "/" + ToAsciiLower(tail);
      assert forall i :: 0 <= i < |server| ==> server[i] in server;
      SplitAt(ToAsciiLower(server), '/', ToAsciiLower(tail));
      LowerIsStable(server);
    }
  }

  /** A drive path keeps its drive; its rest is squeezed and loses its last slash. */
  lemma DriveStraight(path: string)
    requires IsDrivePrefix(path)
    ensures |Replace(path, '\\', "/")| >= 3
    ensures var rest := Squeezed(Replace(path, '\\', "/")[3..], true);
      && Straightened(path) == path[..2] + "/" + TrimSlashes(rest)
      && NoDouble(rest) && !("/" <= rest) && '\\' !in rest
  {
    hide Squeezed, Replace, TrimSlashes, NoDouble;
    Replaced(path);
    var s := Replace(path, '\\', "/");
    var rest := Squeezed(s[3..], true);
    assert forall c <- s[3..] :: c in s;
    SqueezedHasNoDouble(s[3..], true);
    SqueezedKeeps(s[3..], true, '\\');
    DriveSqueezed(s);
    assert path[..2] + "/" == s[..3];
    TrimSlashesIsPrefix("");
    if rest != [] {
      assert rest[0] == '/' ==> "/" <= rest;
      TrimSlashesBehind(s[..3], rest);
    }
  }

  lemma DriveSqueezed(s: string)
    requires |s| >= 3 && IsAsciiAlphabetic(s[0]) && s[1] == ':' && s[2] == '/'
    ensures Collapsed(s) == s[..3] + Squeezed(s[3..], true)
  {
    assert s[1..][1..] == s[2..] && s[2..][1..] == s[3..];
    SqueezeStep([], s, false);
    SqueezeStep([s[0]], s[1..], false);
    SqueezeStep([s[0], s[1]], s[2..], false);
    hide Squeezed;
    assert [] + Squeezed(s, false) == Squeezed(s, false);
    assert [] + [s[0]] == [s[0]] && [s[0]] + [s[1]] == [s[0], s[1]] && [s[0], s[1]] + [s[2]] == s[..3];
  }

  lemma DriveKeyIsNormal(path: string)
    requires IsDrivePrefix(path)
    ensures IsNormal(Key(path))
  {
    DriveStraight(path);
    var rest := TrimSlashes(Squeezed(Replace(path, '\\', "/")[3..], true));
    TrimSlashesIsPrefix(Squeezed(Replace(path, '\\', "/")[3..], true));
    NoDoublePrefix(rest, Squeezed(Replace(path, '\\', "/")[3..], true));
    hide Squeezed, Replace, TrimSlashes, NoDouble, Straightened;
    DriveIsNoWsl(path[..2] + "/" + rest);
    LowerDrive(path, rest);
  }

  lemma DriveIsNoWsl(path: string)
    requires IsDrivePrefix(path)
    ensures NormalizedWsl(path) == None
  {
  }

  lemma LowerDrive(path: string, rest: string)
    requires IsDrivePrefix(path) && NoDouble(rest) && !("/" <= rest) && '\\' !in rest
    requires rest == [] || rest[|rest| - 1] != '/'
    ensures IsNormal(ToAsciiLower(path[..2] + "/" + rest))
  {
    var straight := path[..2] + "/" + rest;
    var low := ToAsciiLower(straight);
    LowerIsStable(straight);
    assert rest != [] && rest[0] == '/' ==> "/" <= rest;
    forall i | 0 <= i < |low| - 1 ensures low[i] != '/' || low[i + 1] != '/' {
      if i >= 3 { assert straight[i] == rest[i - 3] && straight[i + 1] == rest[i - 2]; }
    }
    forall i | 0 <= i < |low| ensures low[i] != '\\' {
      if i >= 3 { assert straight[i] == rest[i - 3] && rest[i - 3] in rest; }
    }
    TrimSlashesIsPrefix(low);
  }

  /** A path of another kind keeps its kind. */
  lemma PlainKeyIsNormal(path: string)
    requires !IsWindowsAbsolute(path)
    ensures IsNormal(Key(path))
  {
    var squeezed := Squeezed(path, false);
    SqueezedHasNoDouble(path, false);
    assert !("//" <= squeezed);
    assert Collapsed(path) == squeezed;
    PlainSqueezed(path);
    TrimSlashesIsPrefix(squeezed);
    var trimmed := TrimSlashes(squeezed);
    NoDoublePrefix(trimmed, squeezed);
    TrimSlashesIsPrefix(trimmed);
    hide Squeezed, TrimSlashes, NoDouble;
    PlainPrefix(trimmed, squeezed);
    assert Straightened(path) == if squeezed == "/" then squeezed else trimmed;
    PlainIsNoWsl(Straightened(path));
  }

  lemma PlainIsNoWsl(path: string)
    requires !IsWindowsAbsolute(path)
    ensures NormalizedWsl(path) == None
  {
  }

  lemma PlainPrefix(s: string, t: string)
    requires s <= t && !IsWindowsAbsolute(t)
    ensures !IsWindowsAbsolute(s)
  {
    assert forall i :: 0 <= i < |s| ==> s[i] == t[i];
  }

  lemma PlainSqueezed(path: string)
    requires !IsWindowsAbsolute(path)
    ensures !IsWindowsAbsolute(Squeezed(path, false))
  {
    SqueezedHasNoDouble(path, false);
    if path != [] && path[0] != '/' {
      SqueezeStep([], path, false);
      if |path| > 1 { SqueezeStep([path[0]], path[1..], false); }
    }
  }

  /** The key of every path is in normal form. */
  lemma KeyIsNormal(path: string)
    ensures IsNormal(Key(path))
  {
    hide Key, IsNormal;
    if !IsWindowsAbsolute(path) {
      PlainKeyIsNormal(path);
    } else if IsDrivePrefix(path) {
      DriveKeyIsNormal(path);
    } else {
      NetworkKeyIsNormal(path);
    }
  }

  // ---- Normal forms are keys ----

  /** A path in normal form is its own key. */
  lemma NormalIsFixed(path: string)
    requires IsNormal(path)
    ensures Key(path) == path
  {
    if !IsWindowsAbsolute(path) {
      SqueezedIsStable(path, false);
      PlainIsNoWsl(path);
    } else if IsDrivePrefix(path) {
      SqueezedIsStable(path, false);
      ReplaceNothing(path);
      DriveIsNoWsl(path);
      hide NoDouble, Squeezed, Replace, TrimSlashes, NormalizedWsl;
      assert Collapsed(path) == path;
    } else {
      NormalNetworkIsStraight(path);
      hide Straightened, NormalizedWsl, IsRest;
    }
  }

  lemma NormalNetworkIsStraight(path: string)
    requires IsWindowsAbsolute(path) && !IsDrivePrefix(path) && "//" <= path && IsRest(path[2..])
    ensures Straightened(path) == path
  {
    var rest := path[2..];
    assert path == "//" + rest;
    assert '\\' !in path;
    ReplaceNothing(path);
    NetworkStraight(path);
    SqueezedIsStable(rest, true);
    TrimSlashesIsPrefix(rest);
  }

  /** The key is a normal form: it is its own key, so every path equals its key; and the paths that
      are their own keys are exactly those in normal form. */
  lemma KeyIsIdempotent(path: string)
    ensures Key(Key(path)) == Key(path) && Equal(path, Key(path))
    ensures IsNormal(path) <==> Key(path) == path
  {
    KeyIsNormal(path);
    hide Key, IsNormal;
    NormalIsFixed(Key(path));
    if IsNormal(path) { NormalIsFixed(path); }
  }

  // ---- Which paths are equal ----

  lemma {:induction false} SqueezedSlash(s: string, previousWasSlash: bool)
    ensures Squeezed(s + "/", previousWasSlash)
      == Squeezed(s, previousWasSlash) + if (if s == [] then previousWasSlash else s[|s| - 1] == '/') then "" else "/"
    decreases s
  {
    if s == [] {
      assert s + "/" == "/" && "/"[1..] == "";
    } else {
      assert (s + "/")[1..] == s[1..] + "/";
      SqueezedSlash(s[1..], s[0] == '/');
      var last := if s[|s| - 1] == '/' then "" else "/";
      SqueezeStep([], s, previousWasSlash);
      SqueezeStep([], s + "/", previousWasSlash);
      hide Squeezed;
      var piece := if s[0] == '/' && previousWasSlash then [] else [s[0]];
      assert [] + Squeezed(s, previousWasSlash) == Squeezed(s, previousWasSlash);
      assert [] + Squeezed(s + "/", previousWasSlash) == Squeezed(s + "/", previousWasSlash);
      assert [] + [s[0]] == [s[0]];
      Assoc(piece, Squeezed(s[1..], s[0] == '/'), last);
    }
  }

  lemma CollapsedSlash(s: string)
    requires s != [] && s != "/"
    ensures Collapsed(s + "/") == Collapsed(s) || Collapsed(s + "/") == Collapsed(s) + "/"
    ensures IsWindowsDriveRoot(Collapsed(s)) ==> Collapsed(s + "/") == Collapsed(s)
  {
    SqueezedSlash(s, false);
    var squeezed := Squeezed(s, false);
    SqueezedHasNoDouble(s, false);
    SqueezedHasNoDouble(s + "/", false);
    hide Squeezed;
    assert squeezed + "" == squeezed;
    Assoc("/", squeezed, "/");
    SlashKeepsPrefix(s);
    NoDoubleStart(squeezed);
    NoDoubleStart(Squeezed(s + "/", false));
    if IsWindowsDriveRoot(squeezed) { DriveRootDoubles(squeezed); }
  }

  lemma DriveRootDoubles(s: string)
    requires IsWindowsDriveRoot(s)
    ensures !NoDouble(s + "/")
  {
    assert (s + "/")[2] == '/' && (s + "/")[3] == '/';
  }

  lemma NoDoubleStart(s: string)
    requires NoDouble(s)
    ensures !("//" <= s)
  {
    PrefixTwo('/', s);
  }

  lemma PrefixTwo(c: char, s: string)
    ensures [c, c] <= s <==> |s| >= 2 && s[0] == c && s[1] == c
  {
    if |s| >= 2 { assert s[..2] == [s[0], s[1]]; }
    if [c, c] <= s { assert s[0] == [c, c][0] && s[1] == [c, c][1]; }
  }

  lemma SlashKeepsPrefix(s: string)
    requires s != [] && s != "/"
    ensures "//" <= s + "/" <==> "//" <= s
    ensures "\\\\" <= s + "/" <==> "\\\\" <= s
  {
    PrefixTwo('/', s);
    PrefixTwo('/', s + "/");
    PrefixTwo('\\', s);
    PrefixTwo('\\', s + "/");
    assert |s| == 1 ==> s == [s[0]];
    assert "\\\\" == ['\\', '\\'] && "//" == ['/', '/'];
  }

  lemma TrimmedSlash(s: string)
    ensures TrimSlashes(s + "/") == TrimSlashes(s)
  {
    assert (s + "/")[..|s|] == s;
  }

  /** The paths to which a trailing slash gives another meaning: none, the root, and a bare drive. */
  predicate IsBare(path: string) {
    path == "" || path == "/" || (|path| == 2 && IsAsciiAlphabetic(path[0]) && path[1] == ':')
  }

  lemma SlashKeepsKind(path: string)
    requires !IsBare(path)
    ensures IsWindowsAbsolute(path + "/") == IsWindowsAbsolute(path)
    ensures IsDrivePrefix(path + "/") == IsDrivePrefix(path)
  {
    SlashKeepsPrefix(path);
  }

  lemma SlashKeepsStraight(path: string)
    requires !IsBare(path)
    ensures Straightened(path + "/") == Straightened(path)
  {
    SlashKeepsKind(path);
    var s := if IsWindowsAbsolute(path) then Replace(path, '\\', "/") else path;
    Replaced(path);
    ReplaceConcat(path, "/", '\\', "/");
    ReplaceNothing("/");
    assert |s| == |path| && (|path| == 1 ==> s == path);
    CollapsedIsLong(path);
    hide Squeezed, Replace, Collapsed, TrimSlashes;
    CollapsedSlash(s);
    TrimmedSlash(Collapsed(s));
  }

  /** Straightening a path that is not bare gives a drive root only for a drive, and no bare path. */
  lemma CollapsedIsLong(path: string)
    requires !IsBare(path)
    ensures var c := Collapsed(if IsWindowsAbsolute(path) then Replace(path, '\\', "/") else path);
      c != "" && c != "/" && !IsWindowsDriveRoot(c + "/")
  {
    var s := if IsWindowsAbsolute(path) then Replace(path, '\\', "/") else path;
    if IsDrivePrefix(path) {
      Replaced(path);
      DriveSqueezed(s);
    } else if IsWindowsAbsolute(path) {
      Replaced(path);
      NetworkCollapsed(s);
    } else {
      SqueezeStep([], path, false);
      if |path| > 1 { SqueezeStep([path[0]], path[1..], false); }
      if |path| > 2 { SqueezeStep([path[0], path[1]], path[2..], false); }
    }
  }

  /** A trailing slash does not matter, except to the paths that are nothing, the root or a drive
      alone. */
  lemma TrailingSlash(path: string)
    ensures Equal(path + "/", path) <==> !IsBare(path)
  {
    if IsBare(path) {
      BareDiffers(path);
    } else {
      SlashKeepsStraight(path);
      SlashKeepsKind(path);
    }
  }

  lemma BareDiffers(path: string)
    requires IsBare(path)
    ensures Key(path + "/") != Key(path)
  {
    assert IsNormal("") && IsNormal("/");
    NormalIsFixed("");
    NormalIsFixed("/");
    if path == "/" {
      assert path + "/" == "//";
      NetworkStraight("//");
      ReplaceNothing("//");
      EmptyIsPlain();
    } else if path == "" {
      assert path + "/" == "/";
    } else {
      DriveDiffers(path);
    }
  }

  lemma DriveDiffers(path: string)
    requires |path| == 2 && IsAsciiAlphabetic(path[0]) && path[1] == ':'
    ensures Key(path + "/") != Key(path)
  {
    var drive := path + "/";
    TrimSlashesIsPrefix(path);
    NormalIsFixed(path);
    DriveStraight(drive);
    ReplaceNothing(drive);
    DriveIsNoWsl(Straightened(drive));
    assert |Key(drive)| >= 3;
  }

  predicate IsSlashes(s: string) {
    forall c <- s :: c == '/' || c == '\\'
  }

  /** Both names of the WSL server lead to the same path, whatever their case, as soon as something
      follows them; the bare servers stay apart. */
  lemma WslSpellings(a: string, b: string, rest: string)
    requires IsWslServer(a) && IsWslServer(b)
    ensures Equal("//" + (a + "/" + rest), "//" + (b + "/" + rest))
       <==> ToAsciiLower(a) == ToAsciiLower(b) || !IsSlashes(rest)
  {
    WslServerKey(a, rest);
    WslServerKey(b, rest);
    hide Key, WslPath, ToAsciiLower;
    if IsSlashes(rest) {
      StripPrefixOf("//", ToAsciiLower(a));
      StripPrefixOf("//", ToAsciiLower(b));
    }
  }

  lemma WslServerKey(server: string, rest: string)
    requires IsWslServer(server)
    ensures Key("//" + (server + "/" + rest))
      == if IsSlashes(rest) then "//" + ToAsciiLower(server)
         else WslPath(TrimSlashes(Squeezed(Replace(rest, '\\', "/"), true)))
  {
    var path := "//" + (server + "/" + rest);
    var tail := Squeezed(Replace(rest, '\\', "/"), true);
    ServerIsClean(server);
    NetworkIsNoDrive(path);
    ServerStraight(server, rest);
    SlashesOnly(rest);
    hide Squeezed, Replace, TrimSlashes, Straightened, WslPath, IsWslServer, ToAsciiLower;
    if tail == [] {
      BareServer(server);
    } else {
      WslNamed(server, TrimSlashes(tail));
    }
  }

  lemma ServerIsClean(server: string)
    requires IsWslServer(server)
    ensures server != [] && '/' !in server && '\\' !in server
  {
    ServerIsPlain();
    var low := ToAsciiLower(server);
    assert '/' !in low && '\\' !in low && |low| > 0;
    assert forall i :: 0 <= i < |server| ==> low[i] in low;
  }

  lemma BareServer(server: string)
    requires '/' !in server
    ensures NormalizedWsl("//" + server) == None && ToAsciiLower("//" + server) == "//" + ToAsciiLower(server)
  {
    SplitOnceParts(server, '/');
    StripPrefixOf("//", server);
    LowerBehind("//", server);
    assert ToAsciiLower("//") == "//";
  }

  lemma {:induction false} SlashesOnly(s: string)
    ensures Squeezed(Replace(s, '\\', "/"), true) == [] <==> IsSlashes(s)
    decreases s
  {
    if s != [] {
      SlashesOnly(s[1..]);
      var t := Replace(s, '\\', "/");
      assert t[0] == (if s[0] == '\\' then '/' else s[0]) && t[1..] == Replace(s[1..], '\\', "/");
      assert forall c <- s[1..] :: c in s;
      assert s[0] in s && forall c <- s :: c == s[0] || c in s[1..];
    }
  }

  lemma ServerStraight(server: string, rest: string)
    requires server != [] && '/' !in server && '\\' !in server
    ensures var path := "//" + (server + "/" + rest);
      var tail := Squeezed(Replace(rest, '\\', "/"), true);
      Straightened(path) == if tail == [] then "//" + server else "//" + (server + "/" + TrimSlashes(tail))
  {
    var path := "//" + (server + "/" + rest);
    var behind := Replace(rest, '\\', "/");
    var tail := Squeezed(behind, true);
    NetworkIsNoDrive(path);
    NetworkStraight(path);
    ReplacedServer(server, rest);
    SqueezedServer(server, behind, true);
    SqueezedHasNoDouble(behind, true);
    hide Squeezed, Replace, TrimSlashes, Straightened;
    TrimSlashesIsPrefix(server);
    assert server[0] in server && server[|server| - 1] in server;
    if tail == [] {
      assert server + "/" + tail == server + "/";
      TrimmedSlash(server);
    } else {
      assert tail[0] == '/' ==> "/" <= tail;
      TrimSlashesBehind(server + "/", tail);
    }
  }

  lemma ReplacedServer(server: string, rest: string)
    requires '\\' !in server
    ensures Replace("//" + (server + "/" + rest), '\\', "/") == "//" + (server + "/" + Replace(rest, '\\', "/"))
  {
    ReplaceConcat("//", server + "/" + rest, '\\', "/");
    ReplaceConcat(server + "/", rest, '\\', "/");
    ReplaceNothing("//");
    ReplaceNothing(server + "/");
  }

  lemma {:induction false} SqueezedServer(server: string, rest: string, previousWasSlash: bool)
    requires '/' !in server && (server == [] ==> !previousWasSlash)
    ensures Squeezed(server + "/" + rest, previousWasSlash) == server + "/" + Squeezed(rest, true)
    decreases server
  {
    var s := server + "/" + rest;
    if server == [] {
      assert s == "/" + rest && s[1..] == rest;
    } else {
      assert server[0] in server && s[0] == server[0] && s[1..] == server[1..] + "/" + rest;
      SqueezedServer(server[1..], rest, false);
      assert server == [server[0]] + server[1..];
      Assoc([server[0]], server[1..] + "/", Squeezed(rest, true));
      Assoc([server[0]], server[1..], "/");
    }
  }
}
