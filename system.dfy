/**
 * The platform utilities of src/utils/system.py: recognising Android (`isAndroid`),
 * classifying its architecture (`getAndroidArch`), the root test (`checkRoot`) and the
 * search of PATH for the external tools the program drives (`checkDependencies`).
 * What the process asks of the operating system is a `Platform` value.
 */
module System {
  import opened Common
  import opened Text

  /** The answers of the foreign calls the utilities make. */
  datatype Platform = Platform(
    paths: set<string>,            // the paths `os.path.exists` reports
    environ: map<string, string>,  // `os.environ`
    system: string,                // `platform.system()`
    machine: string,               // `platform.machine()`
    uid: int,                      // `os.getuid()`
    systemWritable: Option<bool>)  // `os.access('/system', os.W_OK)`; None where it raises

  /** `any(bs)`. */
  function Any(bs: seq<bool>): (r: bool)
    ensures r <==> exists i :: 0 <= i < |bs| && bs[i]
    decreases |bs|
  {
    if bs == [] then false else bs[0] || Any(bs[1..])
  }

  /** The five Android indicators, in the order they are computed. */
  function Indicators(p: Platform): (bs: seq<bool>)
    ensures |bs| == 5
  {
    [ "/system/app" in p.paths,
      "/data/data/com.termux" in p.paths,
      "ANDROID_ROOT" in p.environ,
      "ANDROID_DATA" in p.environ,
      Lower(p.system) == "android" ]
  }

  /** `isAndroid()`: Android is recognised exactly when one of the five indicators holds. */
  predicate IsAndroid(p: Platform): (android: bool)
    ensures android <==>
      || "/system/app" in p.paths
      || "/data/data/com.termux" in p.paths
      || "ANDROID_ROOT" in p.environ
      || "ANDROID_DATA" in p.environ
      || Lower(p.system) == "android"
  {
    var bs := Indicators(p);
    assert Any(bs) <==> bs[0] || bs[1] || bs[2] || bs[3] || bs[4] by {
      if Any(bs) {
        var i :| 0 <= i < 5 && bs[i];
      }
    }
    Any(bs)
  }

  // ---------------------------------------------------------------------------
  // getAndroidArch

  /** The architecture a lower-cased machine name stands for; `aarch64`/`arm64` are tested
      before the `arm` prefix. */
  function ClassifyArch(machine: string): (r: string)
    ensures r == "arm64" || r == "arm" || r == "x86_64" || r == "x86" || r == ""
  {
    var arch := Lower(machine);
    if arch == "aarch64" || arch == "arm64" then "arm64"
    else if StartsWith(arch, "arm") then "arm"
    else if arch == "x86_64" || arch == "amd64" then "x86_64"
    else if arch == "i686" || arch == "x86" then "x86"
    else ""
  }

  /** Each result stands for exactly the machine names the rules give it. */
  lemma ClassifyArchIff(machine: string)
    ensures var arch, r := Lower(machine), ClassifyArch(machine);
      && (r == "arm64" <==> arch == "aarch64" || arch == "arm64")
      && (r == "arm" <==> StartsWith(arch, "arm") && arch != "arm64")
      && (r == "x86_64" <==> arch == "x86_64" || arch == "amd64")
      && (r == "x86" <==> arch == "i686" || arch == "x86")
      && (r == "" <==> arch !in ["aarch64", "arm64", "x86_64", "amd64", "i686", "x86"]
                       && !StartsWith(arch, "arm"))
  {
    var arch := Lower(machine);
    if StartsWith(arch, "arm") {
      assert arch[..3] == "arm";
      assert arch != "aarch64" && arch != "x86_64" && arch != "amd64" && arch != "i686" && arch != "x86" by {
        assert arch[0] == 'a' && arch[1] == 'r';
      }
    }
  }

  /** The letter case of the machine name does not matter. */
  lemma ClassifyArchIgnoresCase(machine: string)
    ensures ClassifyArch(Upper(machine)) == ClassifyArch(machine)
  {
    LowerOfUpper(machine);
  }

  /** `getAndroidArch()`. */
  function GetAndroidArch(p: Platform): (r: string)
    ensures !IsAndroid(p) ==> r == ""
    ensures IsAndroid(p) ==> r == ClassifyArch(p.machine)
  {
    if !IsAndroid(p) then "" else ClassifyArch(p.machine)
  }

  // ---------------------------------------------------------------------------
  // checkRoot

  /** `checkRoot()`: `os.access` is only consulted on Android when the uid is not 0, and an
      exception it raises reads as not root. */
  function CheckRoot(p: Platform): (r: bool)
    ensures !IsAndroid(p) ==> (r <==> p.uid == 0)
    ensures IsAndroid(p) ==> (r <==> p.uid == 0 || p.systemWritable == Some(true))
  {
    if IsAndroid(p) then
      if p.uid == 0 then true
      else match p.systemWritable
        case Some(w) => w
        case None => false
    else p.uid == 0
  }

  // ---------------------------------------------------------------------------
  // checkDependencies

  const BaseTools: seq<string> := ["iwconfig", "ifconfig", "ip", "wpa_supplicant", "wpa_cli"]
  const AndroidTools: seq<string> := ["su", "tsu"]

  /** `required_tools`, after the Android extension. */
  function RequiredTools(android: bool): (ts: seq<string>)
    ensures |ts| >= 5 && ts[..5] == BaseTools
    ensures "su" in ts <==> android
    ensures "tsu" in ts <==> android
  {
    if android then BaseTools + AndroidTools else BaseTools
  }

  /** `posixpath.join(dir, name)`. */
  function PathJoin(dir: string, name: string): (r: string)
    ensures |r| >= |name|
  {
    if |name| > 0 && name[0] == '/' then name
    else if dir == [] || dir[|dir| - 1] == '/' then dir + name
    else dir + "/" + name
  }

  /** A joined path ends with the name, which replaces the directory when absolute and
      otherwise follows it after exactly one `/`. */
  lemma PathJoinShape(dir: string, name: string)
    ensures var r := PathJoin(dir, name);
      && |r| >= |name| && r[|r| - |name|..] == name
      && (|name| > 0 && name[0] == '/' ==> r == name)
      && (dir != [] && (|name| == 0 || name[0] != '/') ==>
            StartsWith(r, dir) && r[|r| - |name| - 1] == '/')
  {
  }

  /** The directories of PATH, split on `os.pathsep`; an unset PATH is the empty string,
      which names the current directory alone. */
  function SearchDirs(p: Platform): (dirs: seq<string>)
    ensures |dirs| >= 1 && forall k :: 0 <= k < |dirs| ==> ':' !in dirs[k]
  {
    Split(if "PATH" in p.environ then p.environ["PATH"] else "", ':')
  }

  /** Some directory holds the tool. */
  predicate ToolFound(dirs: seq<string>, paths: set<string>, tool: string) {
    exists m :: 0 <= m < |dirs| && PathJoin(dirs[m], tool) in paths
  }

  /** Every tool of the list is in some directory. */
  predicate AllFound(dirs: seq<string>, paths: set<string>, tools: seq<string>) {
    forall k :: 0 <= k < |tools| ==> ToolFound(dirs, paths, tools[k])
  }

  /** What `checkDependencies()` promises: every required tool is in some directory of PATH. */
  predicate DependenciesMet(p: Platform) {
    AllFound(SearchDirs(p), p.paths, RequiredTools(IsAndroid(p)))
  }

  /** The `any(...)` over the directories of PATH, stopping at the first hit. */
  method SearchPath(dirs: seq<string>, paths: set<string>, tool: string) returns (found: bool)
    ensures found <==> ToolFound(dirs, paths, tool)
  {
    found := false;
    var j := 0;
    while j < |dirs| && !found
      invariant j <= |dirs|
      invariant found <==> exists m :: 0 <= m < j && PathJoin(dirs[m], tool) in paths
    {
      found := PathJoin(dirs[j], tool) in paths;
      j := j + 1;
    }
  }

  /** `checkDependencies()`: the list of tools grows on Android, then each is searched for
      in turn, and the first one missing ends the search with false. */
  method CheckDependencies(p: Platform) returns (ok: bool)
    ensures ok <==> DependenciesMet(p)
  {
    var tools := BaseTools;
    if IsAndroid(p) {
      tools := tools + AndroidTools;
    }
    var dirs := SearchDirs(p);
    var i := 0;
    while i < |tools|
      invariant i <= |tools|
      invariant forall k :: 0 <= k < i ==> ToolFound(dirs, p.paths, tools[k])
    {
      var found := SearchPath(dirs, p.paths, tools[i]);
      if !found {
        assert tools == RequiredTools(IsAndroid(p));
        return false;
      }
      i := i + 1;
    }
    assert tools == RequiredTools(IsAndroid(p));
    return true;
  }

  /** More files on disk never make a met dependency unmet, as long as they do not
      include an Android marker, which would add `su` and `tsu` to the list. */
  lemma DependenciesMonotone(p: Platform, more: set<string>)
    requires DependenciesMet(p)
    requires "/system/app" !in more && "/data/data/com.termux" !in more
    ensures DependenciesMet(p.(paths := p.paths + more))
  {
    var q := p.(paths := p.paths + more);
    var dirs, tools := SearchDirs(p), RequiredTools(IsAndroid(p));
    assert Indicators(q) == Indicators(p);
    assert SearchDirs(q) == dirs && RequiredTools(IsAndroid(q)) == tools;
    forall k | 0 <= k < |tools| ensures ToolFound(dirs, q.paths, tools[k]) {
      var m :| 0 <= m < |dirs| && PathJoin(dirs[m], tools[k]) in p.paths;
      assert PathJoin(dirs[m], tools[k]) in q.paths;
    }
  }

  /** Off Android only the five base tools are searched for, and with PATH unset each is
      looked for as a relative path. */
  lemma DependenciesWithoutPath(p: Platform)
    requires !IsAndroid(p) && "PATH" !in p.environ
    ensures DependenciesMet(p) <==> forall k :: 0 <= k < |BaseTools| ==> BaseTools[k] in p.paths
  {
    assert Split("", ':') == [""];
    assert SearchDirs(p) == [""];
    forall k | 0 <= k < |BaseTools|
      ensures ToolFound([""], p.paths, BaseTools[k]) <==> BaseTools[k] in p.paths
    {
      assert PathJoin("", BaseTools[k]) == BaseTools[k];
      assert [""][0] == "";
    }
  }
}
