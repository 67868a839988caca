/**
 * `scripts/post-substack.mjs`: reads its settings from the environment,
 * derives the post title from the report's file name, and drives the
 * Substack editor: title, optional subtitle, body, then, in publish mode,
 * "Continue" and "Send to everyone now" when those controls show up.
 *
 * The browser is abstracted: whether a control is visible is an input, and
 * each step the script takes (a fill, a click, a console line) is recorded
 * as an action in a trace.
 */
module PostSubstack {
  import opened Wrappers
  import opened Strings

  const DefaultMode: string := "draft"
  const PublishMode: string := "publish"
  const DefaultTitlePrefix: string := "In Play \U{2014} "
  const UsageMessage: string := "Usage: node scripts/post-substack.mjs out/daily-YYYY-MM-DD.md"

  /** The script's settings. */
  datatype Config = Config(statePath: string, mode: string, titlePrefix: string, subtitle: string, headless: bool)

  /** `process.env[key] || fallback`: an unset or empty variable takes the fallback. */
  function EnvOr(env: map<string, string>, key: string, fallback: string): (v: string)
    ensures key in env && env[key] != "" ==> v == env[key]
    ensures key !in env || env[key] == "" ==> v == fallback
  {
    if key in env && env[key] != "" then env[key] else fallback
  }

  /** The file name and directory `path.join` appends to the working directory. */
  const StatePathTail := "/secrets/substack_state.json"

  /**
   * `path.join(cwd, 'secrets', 'substack_state.json')` for an absolute,
   * normalised `cwd`: the working directory, one '/', then the tail.
   */
  function DefaultStatePath(cwd: string): (p: string)
    ensures |p| >= |StatePathTail| && p[|p| - |StatePathTail|..] == StatePathTail
    ensures p[..|p| - |StatePathTail|] == cwd || p[..|p| - |StatePathTail|] + "/" == cwd
  {
    var dir := if cwd != [] && cwd[|cwd| - 1] == '/' then cwd[..|cwd| - 1] else cwd;
    assert dir == cwd || dir + "/" == cwd;
    JoinParts(dir, StatePathTail);
    dir + StatePathTail
  }

  /** The two parts of a concatenation are recovered by slicing at the join. */
  lemma JoinParts(front: string, back: string)
    ensures (front + back)[..|front|] == front
    ensures (front + back)[|front|..] == back
  {
  }

  /**
   * `(process.env.SUBSTACK_HEADLESS ?? 'true').toLowerCase() !== 'false'`:
   * only a set variable that reads "false" in any letter case turns
   * headless mode off (an empty value leaves it on).
   */
  function Headless(env: map<string, string>): (h: bool)
    ensures !h <==>
      && "SUBSTACK_HEADLESS" in env
      && |env["SUBSTACK_HEADLESS"]| == 5
      && forall i :: 0 <= i < 5 ==>
           env["SUBSTACK_HEADLESS"][i] == "false"[i] || env["SUBSTACK_HEADLESS"][i] == UpperAscii("false"[i])
    ensures "SUBSTACK_HEADLESS" !in env ==> h
    ensures "SUBSTACK_HEADLESS" in env && env["SUBSTACK_HEADLESS"] == "" ==> h
  {
    var key := "SUBSTACK_HEADLESS";
    if key in env then
      assert PlainLowerWord("false");
      LowerIsWord(env[key], "false");
      Lower(env[key]) != "false"
    else
      true
  }


  /**
   * The settings, given the working directory and today's date as text
   * (the default subtitle carries the date).
   */
  function LoadConfig(env: map<string, string>, cwd: string, today: string): (c: Config)
    ensures c.mode == PublishMode <==> "SUBSTACK_MODE" in env && env["SUBSTACK_MODE"] == PublishMode
    ensures ("SUBSTACK_MODE" !in env || env["SUBSTACK_MODE"] == "") ==> c.mode == DefaultMode
    ensures ("POST_TITLE_PREFIX" !in env || env["POST_TITLE_PREFIX"] == "") ==> c.titlePrefix == DefaultTitlePrefix
    ensures c.headless == Headless(env)
    ensures ("SUBSTACK_STATE_PATH" !in env || env["SUBSTACK_STATE_PATH"] == "") ==> c.statePath == DefaultStatePath(cwd)
    ensures "SUBSTACK_STATE_PATH" in env && env["SUBSTACK_STATE_PATH"] != "" ==> c.statePath == env["SUBSTACK_STATE_PATH"]
  {
    Config(
      EnvOr(env, "SUBSTACK_STATE_PATH", DefaultStatePath(cwd)),
      EnvOr(env, "SUBSTACK_MODE", DefaultMode),
      EnvOr(env, "POST_TITLE_PREFIX", DefaultTitlePrefix),
      EnvOr(env, "SUBSTACK_SUBTITLE", "Daily desk notes \U{2014} " + today),
      Headless(env))
  }

  /** `p` without its trailing slashes. */
  function StripTrailingSlashes(p: string): (r: string)
    ensures |r| <= |p| && r == p[..|r|]
    ensures forall i :: |r| <= i < |p| ==> p[i] == '/'
    ensures r == [] || r[|r| - 1] != '/'
  {
    if p != [] && p[|p| - 1] == '/' then StripTrailingSlashes(p[..|p| - 1]) else p
  }

  /** The part of `p` after its last '/', or all of `p` without one. */
  function AfterLastSlash(p: string): (r: string)
    ensures |r| <= |p| && r == p[|p| - |r|..]
    ensures '/' !in r
    ensures |r| < |p| ==> p[|p| - |r| - 1] == '/'
  {
    if p == [] then []
    else if p[|p| - 1] == '/' then []
    else AfterLastSlash(p[..|p| - 1]) + [p[|p| - 1]]
  }

  /** `path.basename(p)`: the last path segment, trailing slashes ignored. */
  function Basename(p: string): (r: string)
    ensures '/' !in r
  {
    AfterLastSlash(StripTrailingSlashes(p))
  }

  /** `s.replace(/\.md$/, '')`. */
  function StripMdSuffix(s: string): (r: string)
    ensures |s| >= 3 && s[|s| - 3..] == ".md" ==> r + ".md" == s
    ensures !(|s| >= 3 && s[|s| - 3..] == ".md") ==> r == s
  {
    if |s| >= 3 && s[|s| - 3..] == ".md" then s[..|s| - 3] else s
  }

  /** `s.replace(/^daily-/, '')`. */
  function StripDailyPrefix(s: string): (r: string)
    ensures |s| >= 6 && s[..6] == "daily-" ==> "daily-" + r == s
    ensures !(|s| >= 6 && s[..6] == "daily-") ==> r == s
  {
    if |s| >= 6 && s[..6] == "daily-" then s[6..] else s
  }

  /** The post title for the report at `mdPath`: the prefix, then a slash-free part of the file name. */
  function Title(prefix: string, mdPath: string): (t: string)
    ensures |t| >= |prefix| && t[..|prefix|] == prefix
    ensures '/' !in t[|prefix|..]
  {
    var name := StripDailyPrefix(StripMdSuffix(Basename(mdPath)));
    StripsKeepNoSlash(Basename(mdPath));
    assert (prefix + name)[|prefix|..] == name;
    prefix + name
  }

  /** Removing ".md" and "daily-" takes a part of the file name, so no '/' appears. */
  lemma StripsKeepNoSlash(base: string)
    requires '/' !in base
    ensures '/' !in StripDailyPrefix(StripMdSuffix(base))
  {
    var m := StripMdSuffix(base);
    if m != base {
      assert forall i :: 0 <= i < |m| ==> m[i] == base[i];
    }
    var d := StripDailyPrefix(m);
    if d != m {
      assert forall i :: 0 <= i < |d| ==> d[i] == m[i + 6];
    }
  }

  /** A report written as `<dir>/daily-<date>.md` is titled with the prefix and the date. */
  lemma TitleOfDailyReport(prefix: string, dir: string, date: string)
    requires '/' !in date
    ensures Title(prefix, dir + "/daily-" + date + ".md") == prefix + date
  {
    var name := "daily-" + date + ".md";
    var p := dir + "/" + name;
    assert p == dir + "/daily-" + date + ".md";
    assert StripTrailingSlashes(p) == p;
    assert '/' !in name;
    AfterLastSlashOfSegment(dir + "/", name);
    var base := "daily-" + date;
    assert name == base + ".md";
    assert StripMdSuffix(name) == base;
    assert base[..6] == "daily-" && base[6..] == date;
  }

  lemma {:induction false} AfterLastSlashOfSegment(dir: string, name: string)
    requires dir != [] && dir[|dir| - 1] == '/' && '/' !in name
    ensures AfterLastSlash(dir + name) == name
  {
    if name == [] {
      assert dir + name == dir;
    } else {
      var init := name[..|name| - 1];
      AfterLastSlashOfSegment(dir, init);
      assert (dir + name)[..|dir + name| - 1] == dir + init;
      assert name == init + [name[|name| - 1]];
    }
  }

  /** The default state file is named "substack_state.json", whatever the working directory. */
  lemma StatePathBasename(cwd: string)
    ensures Basename(DefaultStatePath(cwd)) == "substack_state.json"
  {
    var p := DefaultStatePath(cwd);
    var dir := p[..|p| - |StatePathTail|] + "/secrets/";
    var name := "substack_state.json";
    assert p == p[..|p| - |StatePathTail|] + StatePathTail;
    assert p == dir + name;
    assert StripTrailingSlashes(p) == p;
    AfterLastSlashOfSegment(dir, name);
  }

  /** The daily report of 2024-01-05 is posted as "In Play — 2024-01-05" under the default prefix. */
  lemma ExampleTitle(path: string)
    requires path == "out/daily-2024-01-05.md"
    ensures Title(DefaultTitlePrefix, path) == DefaultTitlePrefix + "2024-01-05"
  {
    var date := "2024-01-05";
    assert '/' !in date;
    assert path == "out" + "/daily-" + date + ".md";
    TitleOfDailyReport(DefaultTitlePrefix, "out", date);
  }

  /** One step the script takes in the browser or on the console. */
  datatype Action =
    | Launch(headless: bool, statePath: string)
    | FillTitle(title: string)
    | FillSubtitle(subtitle: string)
    | TypeBody(content: string)
    | ClickContinue
    | ClickSend
    | Log(message: string)
    | Warn(message: string)
    | Fail(message: string)

  const ClickingContinue: string := "\U{1F449} Clicking Continue\U{2026}"
  const ClickingSend: string := "\U{1F449} Clicking Send to everyone now\U{2026}"
  const NoSend: string := "\U{26A0}\U{FE0F} Send to everyone now button not found, left as draft."
  const NoContinue: string := "\U{26A0}\U{FE0F} \"Continue\" not found, left as draft."

  /** The closing console line: it says "Published" whenever the mode is publish, whatever happened. */
  function DoneMessage(mode: string, title: string): (m: string)
    ensures mode == PublishMode ==> m == "\U{2705} Published: " + title
    ensures mode != PublishMode ==> m == "\U{2705} Draft created: " + title
  {
    "\U{2705} " + (if mode == PublishMode then "Published" else "Draft created") + ": " + title
  }

  /** Index `i` of the trace holds `a`. */
  ghost predicate At(trace: seq<Action>, i: int, a: Action)
  {
    0 <= i < |trace| && trace[i] == a
  }

  /** What the editor steps guarantee about their trace. */
  ghost predicate EditorGuarantees(
    trace: seq<Action>, mode: string, title: string, subtitle: string,
    subtitleVisible: bool, continueVisible: bool, sendVisible: bool)
  {
    && |trace| >= 2
    && trace[0] == FillTitle(title)
    && trace[|trace| - 1] == Log(DoneMessage(mode, title))
    && (FillSubtitle(subtitle) in trace <==> subtitleVisible)
    && (ClickContinue in trace <==> mode == PublishMode && continueVisible)
    && (ClickSend in trace <==> mode == PublishMode && continueVisible && sendVisible)
    && (Warn(NoContinue) in trace <==> mode == PublishMode && !continueVisible)
    && (Warn(NoSend) in trace <==> mode == PublishMode && continueVisible && !sendVisible)
    && SendAfterContinue(trace)
  }

  /** Every click on "Send to everyone now" comes after a click on "Continue". */
  ghost predicate SendAfterContinue(trace: seq<Action>)
  {
    forall i :: At(trace, i, ClickSend) ==> ClickContinue in trace[..i]
  }

  lemma AppendOther(trace: seq<Action>, a: Action)
    requires SendAfterContinue(trace) && a != ClickSend
    ensures SendAfterContinue(trace + [a])
  {
    var t := trace + [a];
    forall i | At(t, i, ClickSend) ensures ClickContinue in t[..i] {
      assert i < |trace| && At(trace, i, ClickSend);
      assert t[..i] == trace[..i];
    }
  }

  lemma AppendSend(trace: seq<Action>)
    requires SendAfterContinue(trace) && ClickContinue in trace
    ensures SendAfterContinue(trace + [ClickSend])
  {
    var t := trace + [ClickSend];
    forall i | At(t, i, ClickSend) ensures ClickContinue in t[..i] {
      if i < |trace| {
        assert At(trace, i, ClickSend);
        assert t[..i] == trace[..i];
      } else {
        assert t[..i] == trace;
      }
    }
  }

  /**
   * The editor steps once the browser is open: title, optional subtitle,
   * body, then the publish sequence, where a missing control leaves the
   * post as a draft with a warning.
   */
  method Edit(mode: string, title: string, subtitle: string, content: string,
              subtitleVisible: bool, continueVisible: bool, sendVisible: bool) returns (trace: seq<Action>)
    ensures EditorGuarantees(trace, mode, title, subtitle, subtitleVisible, continueVisible, sendVisible)
    ensures TypeBody(content) in trace
  {
    trace := [FillTitle(title)];
    if subtitleVisible {
      trace := trace + [FillSubtitle(subtitle)];
    }
    trace := trace + [TypeBody(content)];
    assert SendAfterContinue(trace);
    assert ClickContinue !in trace && ClickSend !in trace && (FillSubtitle(subtitle) in trace <==> subtitleVisible);
    assert Warn(NoContinue) !in trace && Warn(NoSend) !in trace;
    if mode == PublishMode {
      if continueVisible {
        AppendOther(trace, Log(ClickingContinue));
        trace := trace + [Log(ClickingContinue)];
        AppendOther(trace, ClickContinue);
        trace := trace + [ClickContinue];
        if sendVisible {
          AppendOther(trace, Log(ClickingSend));
          trace := trace + [Log(ClickingSend)];
          AppendSend(trace);
          trace := trace + [ClickSend];
        } else {
          AppendOther(trace, Warn(NoSend));
          trace := trace + [Warn(NoSend)];
        }
      } else {
        AppendOther(trace, Warn(NoContinue));
        trace := trace + [Warn(NoContinue)];
      }
    }
    FinishEditor(trace, mode, title, subtitle, subtitleVisible, continueVisible, sendVisible);
    trace := trace + [Log(DoneMessage(mode, title))];
  }

  /** The closing console line keeps every guarantee of the steps before it. */
  lemma FinishEditor(
    trace: seq<Action>, mode: string, title: string, subtitle: string,
    subtitleVisible: bool, continueVisible: bool, sendVisible: bool)
    requires |trace| >= 1 && trace[0] == FillTitle(title) && SendAfterContinue(trace)
    requires FillSubtitle(subtitle) in trace <==> subtitleVisible
    requires ClickContinue in trace <==> mode == PublishMode && continueVisible
    requires ClickSend in trace <==> mode == PublishMode && continueVisible && sendVisible
    requires Warn(NoContinue) in trace <==> mode == PublishMode && !continueVisible
    requires Warn(NoSend) in trace <==> mode == PublishMode && continueVisible && !sendVisible
    ensures EditorGuarantees(trace + [Log(DoneMessage(mode, title))], mode, title, subtitle,
                             subtitleVisible, continueVisible, sendVisible)
  {
    AppendOther(trace, Log(DoneMessage(mode, title)));
  }

  /**
   * A whole run: with no argument, or one naming no existing file, the
   * usage message and exit status 1 come before any browser step;
   * otherwise the browser is launched with the settings and the editor
   * steps follow.
   */
  method Post(env: map<string, string>, cwd: string, today: string, arg: Option<string>, files: map<string, string>,
              subtitleVisible: bool, continueVisible: bool, sendVisible: bool)
    returns (trace: seq<Action>, exitCode: int)
    ensures exitCode == 0 || exitCode == 1
    ensures arg.None? || arg.value == "" || arg.value !in files <==> exitCode == 1
    ensures exitCode == 1 ==> trace == [Fail(UsageMessage)]
    ensures exitCode == 0 ==>
      var c := LoadConfig(env, cwd, today);
      && |trace| >= 1
      && trace[0] == Launch(c.headless, c.statePath)
      && EditorGuarantees(trace[1..], c.mode, Title(c.titlePrefix, arg.value), c.subtitle,
                          subtitleVisible, continueVisible, sendVisible)
      && TypeBody(files[arg.value]) in trace
  {
    if arg.None? || arg.value == "" || arg.value !in files {
      return [Fail(UsageMessage)], 1;
    }
    var c := LoadConfig(env, cwd, today);
    var mdPath := arg.value;
    var content := files[mdPath];
    var title := Title(c.titlePrefix, mdPath);
    var steps := Edit(c.mode, title, c.subtitle, content, subtitleVisible, continueVisible, sendVisible);
    trace := [Launch(c.headless, c.statePath)] + steps;
    exitCode := 0;
    assert trace[1..] == steps;
  }
}
