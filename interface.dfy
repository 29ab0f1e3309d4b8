/**
 * The wireless interface utilities of src/utils/interface.py: bringing an interface up
 * or down (`ifaceCtl`), discovering and choosing a wireless interface (`getInterface`)
 * and testing whether one is usable (`checkInterface`).
 *
 * The operating system is an `Env` value: which paths exist, what the readable files
 * hold, how each command line ends, what listing `/sys/class/net` gives and which line
 * the user types. The effects the utilities have on the world -- commands launched,
 * sleeps, file reads and the printed menu -- are appended to the `trace` of a `Host`.
 */
module Interface {
  import opened Common
  import opened Text

  /** How an attempt to launch a command ends. */
  datatype Proc =
    | Exited(code: int, output: string)  // it ran; with `check=True` a non-zero code raises CalledProcessError
    | Missing                            // the program is not installed: FileNotFoundError
    | Unlaunchable                       // any other OSError, such as PermissionError

  /** What the utilities can observe of the operating system. */
  datatype Env = Env(
    paths: set<string>,               // the paths `os.path.exists` reports
    files: map<string, string>,       // the files `open` and `read` succeed on, with their text
    procs: map<seq<string>, Proc>,    // how each command line ends
    netListing: Option<seq<string>>,  // `os.listdir('/sys/class/net')`; None where it raises OSError
    stdin: Option<string>)            // the line `input()` returns; None at end of input
  {
    predicate Exists(path: string) { path in paths }

    /** A command line the environment does not list is not installed. */
    function Launch(argv: seq<string>): Proc {
      if argv in procs then procs[argv] else Missing
    }

    /** `subprocess.run(argv, check=True)` returns normally. */
    predicate Succeeds(argv: seq<string>) {
      Launch(argv).Exited? && Launch(argv).code == 0
    }
  }

  /** An effect on the world, in the order it happens. */
  datatype Event =
    | Exec(argv: seq<string>)       // a command is launched
    | Sleep(seconds: nat)           // `time.sleep`
    | Read(path: string)            // a file is opened for reading
    | Prompt(choices: seq<string>)  // the numbered menu is printed and a line is read

  function NetDir(iface: string): string { "/sys/class/net/" + iface }
  function WirelessPath(iface: string): string { NetDir(iface) + "/wireless" }
  function OperstatePath(iface: string): string { NetDir(iface) + "/operstate" }

  function IpArgv(iface: string, action: string): seq<string> { ["ip", "link", "set", iface, action] }
  function IfconfigArgv(iface: string, action: string): seq<string> { ["ifconfig", iface, action] }
  const IwconfigArgv: seq<string> := ["iwconfig"]

  /** An `operstate` text that counts as up: stripped, it is `up` or `unknown`. */
  predicate UsableState(content: string): (usable: bool)
    ensures usable ==> |content| >= 2
  {
    Strip(content) == "up" || Strip(content) == "unknown"
  }

  /** The states the kernel writes, with any whitespace around them, are usable. */
  lemma UsableStateSurrounded(pre: string, post: string)
    requires forall k :: 0 <= k < |pre| ==> IsSpace(pre[k])
    requires forall k :: 0 <= k < |post| ==> IsSpace(post[k])
    ensures UsableState(pre + "up" + post)
    ensures UsableState(pre + "unknown" + post)
  {
    StripSurrounded(pre, "up", post);
    StripSurrounded(pre, "unknown", post);
  }

  // ---------------------------------------------------------------------------
  // checkInterface

  /** `checkInterface(iface)`: the interface exists, is wireless, and its `operstate`
      can be read and is usable; a failed read counts as not usable. */
  predicate CheckInterface(env: Env, iface: string): (up: bool)
    ensures up ==> env.Exists(NetDir(iface)) && env.Exists(WirelessPath(iface))
    ensures OperstatePath(iface) !in env.files ==> !up
    ensures up ==> var state := Strip(env.files[OperstatePath(iface)]); state == "up" || state == "unknown"
  {
    && env.Exists(NetDir(iface))
    && env.Exists(WirelessPath(iface))
    && OperstatePath(iface) in env.files
    && UsableState(env.files[OperstatePath(iface)])
  }

  // ---------------------------------------------------------------------------
  // ifaceCtl

  /** What a call returns together with the effects it has. */
  datatype Outcome = Outcome(ok: bool, events: seq<Event>)

  /** The `ifconfig` fallback: success is reported after a one-second sleep, with no
      read-back of the state. */
  function IfconfigFallback(env: Env, iface: string, action: string, before: seq<Event>): (r: Outcome)
    ensures r.ok == env.Succeeds(IfconfigArgv(iface, action))
    ensures |r.events| > |before| && r.events[..|before|] == before
    ensures r.events[|before|] == Exec(IfconfigArgv(iface, action))
  {
    var argv := IfconfigArgv(iface, action);
    if env.Succeeds(argv) then Outcome(true, before + [Exec(argv), Sleep(1)])
    else Outcome(false, before + [Exec(argv)])
  }

  /**
   * `ifaceCtl(iface, action)`: what it returns and what it does. Nothing is launched for
   * an unknown action or a missing interface; then `ip` is tried, and for `up` the state
   * is read back after a second; a failing `ip` or a failed read falls back to `ifconfig`.
   */
  function IfaceCtlSpec(env: Env, iface: string, action: string): (r: Outcome)
    ensures r.ok ==> (action == "up" || action == "down") && env.Exists(NetDir(iface))
    ensures r.events == [] <==> (action != "up" && action != "down") || !env.Exists(NetDir(iface))
    ensures r.events != [] ==> r.events[0] == Exec(IpArgv(iface, action))
  {
    if action != "up" && action != "down" then Outcome(false, [])
    else if !env.Exists(NetDir(iface)) then Outcome(false, [])
    else
      var ip := IpArgv(iface, action);
      if !env.Succeeds(ip) then IfconfigFallback(env, iface, action, [Exec(ip)])
      else if action == "down" then Outcome(true, [Exec(ip)])
      else
        var op := OperstatePath(iface);
        var before := [Exec(ip), Sleep(1), Read(op)];
        if op in env.files then Outcome(UsableState(env.files[op]), before)
        else IfconfigFallback(env, iface, action, before)
  }

  /** A command line that starts with `ifconfig`. */
  predicate IsIfconfig(e: Event) { e.Exec? && |e.argv| > 0 && e.argv[0] == "ifconfig" }

  /** With `ip` succeeding for `up` and a readable `operstate`, the result is exactly
      whether the state is usable, and `ifconfig` is not tried, even for a state `down`. */
  lemma IfaceCtlUpReadsBack(env: Env, iface: string)
    requires env.Exists(NetDir(iface)) && env.Succeeds(IpArgv(iface, "up"))
    requires OperstatePath(iface) in env.files
    ensures var r := IfaceCtlSpec(env, iface, "up");
      && r.ok == UsableState(env.files[OperstatePath(iface)])
      && Read(OperstatePath(iface)) in r.events
      && forall e :: e in r.events ==> !IsIfconfig(e)
  {
    var r := IfaceCtlSpec(env, iface, "up");
    assert r.events == [Exec(IpArgv(iface, "up")), Sleep(1), Read(OperstatePath(iface))];
  }

  /** With `ip` succeeding for `down`, the result is true and nothing else happens. */
  lemma IfaceCtlDownTrusted(env: Env, iface: string)
    requires env.Exists(NetDir(iface)) && env.Succeeds(IpArgv(iface, "down"))
    ensures IfaceCtlSpec(env, iface, "down") == Outcome(true, [Exec(IpArgv(iface, "down"))])
  {
  }

  /** A failing `ip` or an unreadable `operstate` hands over to `ifconfig`, whose
      success alone decides the result, with no read after it. */
  lemma IfaceCtlFallsBack(env: Env, iface: string, action: string)
    requires action == "up" || action == "down"
    requires env.Exists(NetDir(iface))
    requires !env.Succeeds(IpArgv(iface, action))
      || (action == "up" && OperstatePath(iface) !in env.files)
    ensures var r := IfaceCtlSpec(env, iface, action);
      && r.ok == env.Succeeds(IfconfigArgv(iface, action))
      && Exec(IfconfigArgv(iface, action)) in r.events
      && var n := |r.events| - (if r.ok then 2 else 1);
         && 0 < n && r.events[n] == Exec(IfconfigArgv(iface, action))
         && r.events[n + 1..] == (if r.ok then [Sleep(1)] else [])
  {
  }

  /** For a wireless interface, bringing it up through `ip` reports exactly what
      `checkInterface` reports in the same environment. */
  lemma IfaceCtlUpMatchesCheck(env: Env, iface: string)
    requires env.Exists(NetDir(iface)) && env.Exists(WirelessPath(iface))
    requires env.Succeeds(IpArgv(iface, "up")) && OperstatePath(iface) in env.files
    ensures IfaceCtlSpec(env, iface, "up").ok == CheckInterface(env, iface)
  {
  }

  // ---------------------------------------------------------------------------
  // the `(\w+)\s+IEEE` scan of the iwconfig output

  /** The end of the run of word characters that starts at `i`. */
  function WordEnd(s: string, i: nat): (k: nat)
    requires i <= |s|
    ensures i <= k <= |s|
    ensures forall j :: i <= j < k ==> IsWordChar(s[j])
    ensures k == |s| || !IsWordChar(s[k])
    decreases |s| - i
  {
    if i < |s| && IsWordChar(s[i]) then WordEnd(s, i + 1) else i
  }

  /** A run of word characters from `i` that stops at `j` ends at `j`. */
  lemma {:induction false} WordEndOver(s: string, i: nat, j: nat)
    requires i <= j <= |s|
    requires forall k :: i <= k < j ==> IsWordChar(s[k])
    requires j == |s| || !IsWordChar(s[j])
    ensures WordEnd(s, i) == j
    decreases j - i
  {
    if i < j {
      WordEndOver(s, i + 1, j);
    }
  }

  /** A match of `(\w+)\s+IEEE`: where it ends and the word it captures. */
  datatype Match = Match(end: nat, word: string)

  /**
   * The match that starts at `p`, if any. Backtracking cannot help the pattern: a
   * shorter word is followed by a word character and a shorter blank run by a blank,
   * so the word and the blanks are the longest runs from `p`.
   */
  function MatchAt(s: string, p: nat): (m: Option<Match>)
    requires p <= |s|
    ensures m.Some? ==> p < m.value.end <= |s| && IeeeMatch(s, p, m.value)
    ensures m.Some? ==> m.value.word == s[p..WordEnd(s, p)]
  {
    if p < |s| && IsWordChar(s[p]) then
      var w := WordEnd(s, p);
      var e := SkipSpaces(s, StrSpaces, w);
      if w < e && e + 4 <= |s| && s[e..e + 4] == "IEEE" then
        assert forall k :: w <= k < e ==> IsSpace(s[k]) by {
          forall k | w <= k < e ensures IsSpace(s[k]) {
            SkipSpacesDropped(s, StrSpaces, w, k);
          }
        }
        Some(Match(e + 4, s[p..w]))
      else None
    else None
  }

  /** A match of the pattern at `p` is the one `MatchAt` finds. */
  lemma MatchAtComplete(s: string, p: nat, m: Match)
    requires p <= |s| && IeeeMatch(s, p, m)
    ensures MatchAt(s, p) == Some(m)
  {
    var w := p + |m.word|;
    forall k | p <= k < w ensures IsWordChar(s[k]) {
      assert s[k] == m.word[k - p];
    }
    assert IsSpace(s[w]);
    WordEndOver(s, p, w);
    assert s[m.end - 4] == 'I';
    SkipSpacesOver(s, StrSpaces, w, m.end - 4);
    assert s[p] == m.word[0];
  }

  /** `m` is a match of `(\w+)\s+IEEE` starting at `p`: the captured word, then at least
      one blank, then `IEEE`, which ends the match. */
  predicate IeeeMatch(s: string, p: nat, m: Match) {
    var w := p + |m.word|;
    && w < m.end - 4 && m.end <= |s|
    && s[p..w] == m.word && IsWord(m.word)
    && (forall k :: w <= k < m.end - 4 ==> IsSpace(s[k]))
    && s[m.end - 4..m.end] == "IEEE"
  }

  /** A non-empty run of word characters. */
  predicate IsWord(w: string) {
    |w| > 0 && forall j :: 0 <= j < |w| ==> IsWordChar(w[j])
  }

  /** `re.findall` from position `p`: try a match at `p`, resume after it, or else try
      the next position. */
  function FindAll(s: string, p: nat): (ws: seq<string>)
    requires p <= |s|
    ensures forall k :: 0 <= k < |ws| ==> IsWord(ws[k])
    ensures |ws| <= |s| - p
    decreases |s| - p
  {
    if p == |s| then []
    else match MatchAt(s, p)
      case Some(m) => [m.word] + FindAll(s, m.end)
      case None => FindAll(s, p + 1)
  }

  /** The scan finds nothing exactly when the pattern matches at no position. */
  lemma {:induction false} FindAllEmpty(s: string, p: nat)
    requires p <= |s|
    ensures FindAll(s, p) == [] <==> forall q :: p <= q <= |s| ==> MatchAt(s, q).None?
    decreases |s| - p
  {
    if p < |s| && MatchAt(s, p).None? {
      FindAllEmpty(s, p + 1);
      assert forall q :: p <= q <= |s| ==> MatchAt(s, q).None? <==> q == p || (p + 1 <= q <= |s| ==> MatchAt(s, q).None?);
    }
  }

  /** Every name the scan returns is the word of a match of `(\w+)\s+IEEE` in `s`, so it
      is followed by blanks and `IEEE`. */
  lemma {:induction false} FindAllMatched(s: string, p: nat, k: nat) returns (q: nat)
    requires p <= |s| && k < |FindAll(s, p)|
    ensures p <= q < |s| && MatchAt(s, q).Some?
    ensures IeeeMatch(s, q, MatchAt(s, q).value) && MatchAt(s, q).value.word == FindAll(s, p)[k]
    decreases |s| - p
  {
    match MatchAt(s, p)
    case Some(m) =>
      if k == 0 {
        q := p;
      } else {
        q := FindAllMatched(s, m.end, k - 1);
      }
    case None =>
      q := FindAllMatched(s, p + 1, k);
  }

  /** The interface names `iwconfig` output lists, in order. */
  function Scan(output: string): (names: seq<string>)
    ensures |names| <= |output| && forall k :: 0 <= k < |names| ==> IsWord(names[k])
  {
    FindAll(output, 0)
  }

  // ---------------------------------------------------------------------------
  // getInterface

  /** The exceptions `getInterface` lets escape. */
  datatype Failure =
    | EndOfInput   // EOFError from `input()`
    | LaunchError  // an OSError other than FileNotFoundError from launching `iwconfig`

  /** The entries of `/sys/class/net` that have a `wireless` entry, in listing order. */
  function FilterWireless(env: Env, entries: seq<string>): (r: seq<string>)
    ensures |r| <= |entries|
    decreases |entries|
  {
    if entries == [] then []
    else
      var last := entries[|entries| - 1];
      FilterWireless(env, entries[..|entries| - 1]) + (if env.Exists(WirelessPath(last)) then [last] else [])
  }

  /** The scan of a listing is the scan of its first part followed by that of the rest,
      so the wireless entries keep their listing order. */
  lemma {:induction false} FilterWirelessAppend(env: Env, a: seq<string>, b: seq<string>)
    ensures FilterWireless(env, a + b) == FilterWireless(env, a) + FilterWireless(env, b)
    decreases |b|
  {
    if b != [] {
      var init := b[..|b| - 1];
      assert (a + b)[..|a + b| - 1] == a + init;
      FilterWirelessAppend(env, a, init);
    } else {
      assert a + b == a;
    }
  }

  /** The first candidate of the fallback scan, which `getInterface` returns without a
      prompt, is the first listed entry that has a `wireless` entry. */
  lemma FilterWirelessFirst(env: Env, entries: seq<string>, i: nat)
    requires i < |entries| && env.Exists(WirelessPath(entries[i]))
    requires forall j :: 0 <= j < i ==> !env.Exists(WirelessPath(entries[j]))
    ensures |FilterWireless(env, entries)| > 0 && FilterWireless(env, entries)[0] == entries[i]
  {
    var pre, rest := entries[..i], entries[i + 1..];
    assert entries == pre + ([entries[i]] + rest);
    FilterWirelessAppend(env, pre, [entries[i]] + rest);
    FilterWirelessAppend(env, [entries[i]], rest);
    assert [entries[i]] == [] + [entries[i]];
    if FilterWireless(env, pre) != [] {
      var x := FilterWireless(env, pre)[0];
      FilterWirelessIff(env, pre, x);
      assert false;
    }
  }

  /** The fallback scan keeps an entry exactly when it has a `wireless` entry. */
  lemma {:induction false} FilterWirelessIff(env: Env, entries: seq<string>, x: string)
    ensures x in FilterWireless(env, entries) <==> x in entries && env.Exists(WirelessPath(x))
    decreases |entries|
  {
    if entries != [] {
      var init := entries[..|entries| - 1];
      FilterWirelessIff(env, init, x);
      assert entries == init + [entries[|entries| - 1]];
    }
  }

  /** Where the candidates come from. */
  datatype Discovery =
    | Found(candidates: seq<string>)
    | ListingFailed      // the fallback listing raised OSError
    | Raised(f: Failure)

  /** `iwconfig`'s output when it exits with 0; otherwise, when it fails or is not
      installed, the wireless entries of `/sys/class/net`. An empty output is not a failure. */
  function Discover(env: Env): (d: Discovery)
    ensures env.Succeeds(IwconfigArgv) ==> d == Found(Scan(env.Launch(IwconfigArgv).output))
  {
    var p := env.Launch(IwconfigArgv);
    if p.Exited? && p.code == 0 then Found(Scan(p.output))
    else if p.Unlaunchable? then Raised(LaunchError)
    else match env.netListing
      case None => ListingFailed
      case Some(entries) => Found(FilterWireless(env, entries))
  }

  /**
   * The selection rule: no candidate gives `''`, one is taken without a prompt, and of
   * several the one whose 1-based number the user types is taken, the first for any
   * other line or without a prompt. Only the end of input escapes.
   */
  function Select(cs: seq<string>, prompt: bool, stdin: Option<string>): (r: Result<string, Failure>)
    ensures cs == [] ==> r == Ok("")
    ensures r.Ok? && cs != [] ==> r.value in cs
    ensures r.Err? <==> |cs| > 1 && prompt && stdin.None?
    ensures |cs| == 1 ==> r == Ok(cs[0])
    ensures |cs| > 1 && !prompt ==> r == Ok(cs[0])
  {
    if |cs| == 0 then Ok("")
    else if |cs| == 1 then Ok(cs[0])
    else if !prompt then Ok(cs[0])
    else match stdin
      case None => Err(EndOfInput)
      case Some(line) =>
        match ParseInt(line, 10)
        case Some(k) => if 1 <= k <= |cs| then Ok(cs[k - 1]) else Ok(cs[0])
        case None => Ok(cs[0])
  }

  /** Typing the decimal number of a candidate picks it. */
  lemma SelectTyped(cs: seq<string>, k: int)
    requires |cs| > 1 && 1 <= k <= |cs|
    ensures Select(cs, true, Some(FormatInt(k))) == Ok(cs[k - 1])
  {
    ParseFormatInt(k);
  }

  /** Any line `int()` reads as the number of a candidate picks it, whatever its spelling
      (surrounding blanks, a `+`, leading zeros, underscores). */
  lemma SelectParsed(cs: seq<string>, line: string, k: int)
    requires |cs| > 1 && ParseInt(line, 10) == Some(k) && 1 <= k <= |cs|
    ensures Select(cs, true, Some(line)) == Ok(cs[k - 1])
  {
  }

  /** A number out of range, or a line that is not a number, picks the first candidate. */
  lemma SelectOtherwise(cs: seq<string>, line: string)
    requires |cs| > 1
    requires match ParseInt(line, 10) case None => true case Some(k) => k < 1 || k > |cs|
    ensures Select(cs, true, Some(line)) == Ok(cs[0])
  {
  }

  /** `getInterface(prompt)`: `''` where the fallback listing fails, otherwise `''` or a
      discovered interface; it raises only when `iwconfig` cannot be launched or input ends. */
  function GetInterfaceResult(env: Env, prompt: bool): (r: Result<string, Failure>)
    ensures Discover(env) == ListingFailed ==> r == Ok("")
    ensures r.Ok? && r.value != "" ==> Discover(env).Found? && r.value in Discover(env).candidates
    ensures r.Err? <==> (env.Launch(IwconfigArgv).Unlaunchable?
                         || (Discover(env).Found? && |Discover(env).candidates| > 1 && prompt && env.stdin.None?))
  {
    match Discover(env)
      case ListingFailed => Ok("")
      case Raised(f) => Err(f)
      case Found(cs) => Select(cs, prompt, env.stdin)
  }

  /** `iwconfig` is launched, and the menu is shown exactly when there are several
      candidates and prompting is on. */
  function GetInterfaceEvents(env: Env, prompt: bool): (es: seq<Event>)
    ensures |es| >= 1 && es[0] == Exec(IwconfigArgv)
    ensures |es| == 2 <==> Discover(env).Found? && |Discover(env).candidates| > 1 && prompt
    ensures |es| <= 2 && forall k :: 1 <= k < |es| ==> es[k] == Prompt(Discover(env).candidates)
  {
    match Discover(env)
      case Found(cs) => if |cs| > 1 && prompt then [Exec(IwconfigArgv), Prompt(cs)] else [Exec(IwconfigArgv)]
      case _ => [Exec(IwconfigArgv)]
  }

  /** What `getInterface` returns is `''` or one of the interfaces it discovered, and
      with discovery from `/sys/class/net` that is a listed wireless interface. */
  lemma GetInterfaceFromListing(env: Env, prompt: bool, entries: seq<string>)
    requires !env.Succeeds(IwconfigArgv) && !env.Launch(IwconfigArgv).Unlaunchable?
    requires env.netListing == Some(entries)
    requires GetInterfaceResult(env, prompt).Ok?
    ensures var name := GetInterfaceResult(env, prompt).value;
      name == "" || (name in entries && env.Exists(WirelessPath(name)))
  {
    var name := GetInterfaceResult(env, prompt).value;
    if name != "" {
      FilterWirelessIff(env, entries, name);
    }
  }

  /** An interface `checkInterface` accepts is among the candidates of the fallback
      scan whenever `/sys/class/net` lists it. */
  lemma CheckedIsDiscovered(env: Env, iface: string, entries: seq<string>)
    requires CheckInterface(env, iface)
    requires !env.Succeeds(IwconfigArgv) && !env.Launch(IwconfigArgv).Unlaunchable?
    requires env.netListing == Some(entries) && iface in entries
    ensures Discover(env).Found? && iface in Discover(env).candidates
  {
    FilterWirelessIff(env, entries, iface);
  }

  // ---------------------------------------------------------------------------
  // the effects, on a host

  /** The machine the utilities run on: a fixed environment and the effects so far. */
  class Host {
    const env: Env
    var trace: seq<Event>

    constructor(env: Env)
      ensures this.env == env && trace == []
    {
      this.env := env;
      trace := [];
    }

    method Run(argv: seq<string>) returns (p: Proc)
      modifies this
      ensures p == env.Launch(argv)
      ensures trace == old(trace) + [Exec(argv)]
    {
      p := env.Launch(argv);
      trace := trace + [Exec(argv)];
    }

    method Wait(seconds: nat)
      modifies this
      ensures trace == old(trace) + [Sleep(seconds)]
    {
      trace := trace + [Sleep(seconds)];
    }

    /** `open(path).read()`; None where it raises OSError. */
    method ReadFile(path: string) returns (content: Option<string>)
      modifies this
      ensures content == (if path in env.files then Some(env.files[path]) else None)
      ensures trace == old(trace) + [Read(path)]
    {
      content := if path in env.files then Some(env.files[path]) else None;
      trace := trace + [Read(path)];
    }

    /** `ifaceCtl(iface, action)`. */
    method IfaceCtl(iface: string, action: string) returns (ok: bool)
      modifies this
      ensures ok == IfaceCtlSpec(env, iface, action).ok
      ensures trace == old(trace) + IfaceCtlSpec(env, iface, action).events
    {
      if action != "up" && action != "down" {
        return false;
      }
      if !env.Exists(NetDir(iface)) {
        return false;
      }
      var ip := Run(IpArgv(iface, action));
      if ip.Exited? && ip.code == 0 {
        if action == "down" {
          return true;
        }
        Wait(1);
        var content := ReadFile(OperstatePath(iface));
        if content.Some? {
          return UsableState(content.value);
        }
      }
      var cfg := Run(IfconfigArgv(iface, action));
      if cfg.Exited? && cfg.code == 0 {
        Wait(1);
        return true;
      }
      return false;
    }

    /** The discovery half of `getInterface`: `iwconfig`, then the listing fallback. */
    method DiscoverCandidates() returns (d: Discovery)
      modifies this
      ensures d == Discover(env)
      ensures trace == old(trace) + [Exec(IwconfigArgv)]
    {
      var p := Run(IwconfigArgv);
      if p.Exited? && p.code == 0 {
        var found: seq<string> := [];
        found := found + Scan(p.output);
        return Found(found);
      }
      if p.Unlaunchable? {
        return Raised(LaunchError);
      }
      if env.netListing.None? {
        return ListingFailed;
      }
      var cs := CollectWireless(env, env.netListing.value);
      return Found(cs);
    }

    /** `getInterface(prompt)`. */
    method GetInterface(prompt: bool) returns (r: Result<string, Failure>)
      modifies this
      ensures r == GetInterfaceResult(env, prompt)
      ensures trace == old(trace) + GetInterfaceEvents(env, prompt)
    {
      var d := DiscoverCandidates();
      if d.ListingFailed? {
        return Ok("");
      }
      if d.Raised? {
        return Err(d.f);
      }
      var candidates := d.candidates;
      if |candidates| == 0 {
        return Ok("");
      }
      if |candidates| == 1 {
        return Ok(candidates[0]);
      }
      if prompt {
        trace := trace + [Prompt(candidates)];
        if env.stdin.None? {
          return Err(EndOfInput);
        }
        var choice := ParseInt(env.stdin.value, 10);
        if choice.Some? && 1 <= choice.value <= |candidates| {
          return Ok(candidates[choice.value - 1]);
        }
      }
      return Ok(candidates[0]);
    }
  }

  /** The loop over `os.listdir('/sys/class/net')` that collects the wireless entries. */
  method CollectWireless(env: Env, entries: seq<string>) returns (cs: seq<string>)
    ensures cs == FilterWireless(env, entries)
  {
    cs := [];
    var i := 0;
    while i < |entries|
      invariant i <= |entries|
      invariant cs == FilterWireless(env, entries[..i])
    {
      assert entries[..i + 1][..i] == entries[..i];
      if env.Exists(WirelessPath(entries[i])) {
        cs := cs + [entries[i]];
      }
      i := i + 1;
    }
    assert entries[..i] == entries;
  }
}
