/** The two pure helpers of the setup wizard's framework detection: the ignore
    list written into the generated config, and the `lint` and `lint:fix`
    script commands. The detected framework is an input; detecting it reads the
    file system and is not part of this model. */
module FrameworkDetection {
  import opened Wrappers
  import opened Seqs
  import opened Text

  /** What a framework asks to ignore: whole directories and file patterns. */
  datatype IgnorePaths = IgnorePaths(directories: seq<string>, patterns: seq<string>)

  /** One framework description (`IFrameworkConfig`). */
  datatype FrameworkConfig = FrameworkConfig(
    name: string,
    lintPaths: seq<string>,
    ignorePaths: IgnorePaths,
    packageIndicators: seq<string>,
    fileIndicators: Option<seq<string>>)

  /** A detected framework and whether the project uses TypeScript. */
  datatype DetectedFramework = DetectedFramework(framework: FrameworkConfig, hasTypescript: bool)

  /** The ignores every generated config starts with. */
  const CommonIgnores: seq<string> := [
    "**/node_modules/", "**/.git/", "**/dist/", "**/build/", "**/coverage/",
    "**/.vscode/", "**/.idea/", "**/*.min.js", "**/*.bundle.js"
  ]

  /** The result of `generateIgnoreConfig`. */
  datatype IgnoreConfig = IgnoreConfig(ignores: seq<string>, lintPaths: seq<string>)

  /** A directory name without its one trailing `/`, if it has one. */
  function TrimSlash(dir: string): (r: string)
    ensures r == dir || r + "/" == dir
  {
    if EndsWith(dir, "/") then dir[..|dir| - 1] else dir
  }

  /** The ignore pattern for a framework directory: everything below it. A
      directory written with a trailing `/` gets no second one. */
  function DirectoryIgnore(dir: string): (r: string)
    ensures r == "**/" + TrimSlash(dir) + "/**/*"
  {
    if EndsWith(dir, "/") then "**/" + dir + "**/*" else "**/" + dir + "/**/*"
  }

  /** `dist` and `dist/` are ignored by the same pattern. */
  lemma DirectoryIgnoreSlash(dir: string)
    requires !EndsWith(dir, "/")
    ensures DirectoryIgnore(dir + "/") == DirectoryIgnore(dir)
  {
    assert EndsWith(dir + "/", "/");
    assert (dir + "/")[..|dir|] == dir;
  }

  /** `directories.map(...)`. */
  function DirectoryIgnores(dirs: seq<string>): (r: seq<string>)
    ensures |r| == |dirs|
    ensures forall i | 0 <= i < |dirs| :: r[i] == DirectoryIgnore(dirs[i])
  {
    if dirs == [] then [] else [DirectoryIgnore(dirs[0])] + DirectoryIgnores(dirs[1..])
  }

  /** `generateIgnoreConfig(framework)`, with the common list as a parameter. */
  function IgnoreConfigWith(common: seq<string>, framework: Option<DetectedFramework>): (r: IgnoreConfig)
    ensures framework.None? ==> r.ignores == common && r.lintPaths == []
    ensures framework.Some? ==> r.lintPaths == framework.value.framework.lintPaths
  {
    match framework
    case None => IgnoreConfig(common, [])
    case Some(f) =>
      var ip := f.framework.ignorePaths;
      IgnoreConfig(common + DirectoryIgnores(ip.directories) + ip.patterns, f.framework.lintPaths)
  }

  /** `generateIgnoreConfig(framework)`. */
  function GenerateIgnoreConfig(framework: Option<DetectedFramework>): IgnoreConfig {
    IgnoreConfigWith(CommonIgnores, framework)
  }

  /** The common list has nine entries, so without a framework there are nine
      ignores and no lint paths. */
  lemma IgnoreConfigNoFramework()
    ensures |CommonIgnores| == 9
    ensures GenerateIgnoreConfig(None) == IgnoreConfig(CommonIgnores, [])
  {
  }

  /** With a framework the ignores are the common ones, then one pattern per
      directory in order, then the framework's patterns unchanged; the lint
      paths are the framework's. */
  lemma IgnoreConfigLayout(common: seq<string>, f: DetectedFramework)
    ensures var r := IgnoreConfigWith(common, Some(f));
      var dirs, pats := f.framework.ignorePaths.directories, f.framework.ignorePaths.patterns;
      && |r.ignores| == |common| + |dirs| + |pats|
      && r.ignores[..|common|] == common
      && (forall i | 0 <= i < |dirs| :: r.ignores[|common| + i] == "**/" + TrimSlash(dirs[i]) + "/**/*")
      && r.ignores[|common| + |dirs|..] == pats
      && r.lintPaths == f.framework.lintPaths
  {
    var dirs, pats := f.framework.ignorePaths.directories, f.framework.ignorePaths.patterns;
    var ds := DirectoryIgnores(dirs);
    var r := common + ds + pats;
    forall i | 0 <= i < |dirs| ensures r[|common| + i] == "**/" + TrimSlash(dirs[i]) + "/**/*" {
      assert r[|common| + i] == ds[i];
    }
    assert r[|common| + |dirs|..] == pats;
  }

  // ------------------------------------------------------------ lint commands

  /** The separator a lint path is cut at: a slash followed by a star. */
  const Cut: string := "/" + "*"

  /** The script commands. */
  datatype LintCommands = LintCommands(lintCommand: string, lintFixCommand: string)

  /** The stylelint and prettier segments of the two commands. */
  const StylelintLint: string := "stylelint \"**/*.{css,scss,less}\""
  const StylelintFix: string := "stylelint \"**/*.{css,scss,less}\" --fix"
  const PrettierLint: string := "prettier --check ."
  const PrettierFix: string := "prettier --write ."

  // `path.split(Cut)[0]`: the path up to the first occurrence of `Cut`, or the
  // whole path when there is none.
  function DirectoryOf(path: string): (r: string)
    ensures r <= path
    ensures forall j | 0 <= j <= |r| :: !OccursAt(r, Cut, j)
    ensures r == path || OccursAt(path, Cut, |r|)
  {
    SplitHead(path, Cut)
  }

  /** `basePaths.map(...)`. */
  function DirectoriesOf(paths: seq<string>): (r: seq<string>)
    ensures |r| == |paths|
    ensures forall i | 0 <= i < |paths| :: r[i] == DirectoryOf(paths[i])
  {
    if paths == [] then [] else [DirectoryOf(paths[0])] + DirectoriesOf(paths[1..])
  }

  /** The paths the commands lint: the framework's when there is one, else the
      custom ones. */
  function BasePaths(framework: Option<DetectedFramework>, customPaths: seq<string>): seq<string> {
    match framework
    case Some(f) => f.framework.lintPaths
    case None => customPaths
  }

  /** The distinct directories the commands name, in order of first appearance. */
  function CommandDirectories(framework: Option<DetectedFramework>, customPaths: seq<string>): seq<string> {
    Unique(DirectoriesOf(BasePaths(framework, customPaths)))
  }

  /** The segment lists the command is pushed together from. */
  function Segments(first: string, stylelint: string, prettier: string, includeStylelint: bool, includePrettier: bool): seq<string> {
    var withStylelint := if includeStylelint then [first] + [stylelint] else [first];
    if includePrettier then withStylelint + [prettier] else withStylelint
  }

  /** `generateLintCommands(framework, customPaths, includeStylelint, includePrettier)`. */
  function GenerateLintCommands(framework: Option<DetectedFramework>, customPaths: seq<string>,
                                includeStylelint: bool, includePrettier: bool): LintCommands
  {
    var dirs := Join(CommandDirectories(framework, customPaths), " ");
    LintCommands(
      Join(Segments("eslint " + dirs, StylelintLint, PrettierLint, includeStylelint, includePrettier), " && "),
      Join(Segments("eslint " + dirs + " --fix", StylelintFix, PrettierFix, includeStylelint, includePrettier), " && "))
  }

  /** The optional part of a command after the eslint segment. */
  function Tail(stylelint: string, prettier: string, includeStylelint: bool, includePrettier: bool): string {
    (if includeStylelint then " && " + stylelint else "") + (if includePrettier then " && " + prettier else "")
  }

  /** Joining the pushed segments gives the eslint segment followed by each
      included tool's segment after ` && `. */
  lemma SegmentsJoin(first: string, stylelint: string, prettier: string, includeStylelint: bool, includePrettier: bool)
    ensures Join(Segments(first, stylelint, prettier, includeStylelint, includePrettier), " && ")
      == first + Tail(stylelint, prettier, includeStylelint, includePrettier)
  {
    var base := if includeStylelint then [first] + [stylelint] else [first];
    var joined := first + (if includeStylelint then " && " + stylelint else "");
    assert Join(base, " && ") == joined by {
      if includeStylelint {
        JoinSnoc([first], " && ", stylelint);
      }
    }
    if includePrettier {
      JoinSnoc(base, " && ", prettier);
    }
  }

  /** The commands in closed form: `eslint` with the directories joined by
      spaces, then the stylelint and prettier segments when included; the fix
      command has ` --fix` after the directories and the fixing variants of the
      segments. */
  lemma LintCommandsClosedForm(framework: Option<DetectedFramework>, customPaths: seq<string>,
                               includeStylelint: bool, includePrettier: bool)
    ensures var r := GenerateLintCommands(framework, customPaths, includeStylelint, includePrettier);
      var dirs := Join(CommandDirectories(framework, customPaths), " ");
      && r.lintCommand == "eslint " + dirs + Tail(StylelintLint, PrettierLint, includeStylelint, includePrettier)
      && r.lintFixCommand == "eslint " + dirs + " --fix" + Tail(StylelintFix, PrettierFix, includeStylelint, includePrettier)
  {
    var dirs := Join(CommandDirectories(framework, customPaths), " ");
    SegmentsJoin("eslint " + dirs, StylelintLint, PrettierLint, includeStylelint, includePrettier);
    SegmentsJoin("eslint " + dirs + " --fix", StylelintFix, PrettierFix, includeStylelint, includePrettier);
  }

  /** Without stylelint or prettier the fix command is the lint command with
      ` --fix` appended. */
  lemma FixIsLintWithFix(framework: Option<DetectedFramework>, customPaths: seq<string>)
    ensures var r := GenerateLintCommands(framework, customPaths, false, false);
      r.lintFixCommand == r.lintCommand + " --fix"
  {
    LintCommandsClosedForm(framework, customPaths, false, false);
  }

  // The directories named are distinct, each is a base path cut before the
  // first occurrence of `Cut` and holds no `Cut` itself, and every base path's
  // directory is named.
  lemma CommandDirectoriesMeaning(framework: Option<DetectedFramework>, customPaths: seq<string>)
    ensures var ds := CommandDirectories(framework, customPaths);
      var base := BasePaths(framework, customPaths);
      && NoDuplicates(ds)
      && (forall d | d in ds :: exists p | p in base :: d == DirectoryOf(p))
      && (forall p | p in base :: DirectoryOf(p) in ds)
      && (forall d | d in ds :: forall j | 0 <= j <= |d| :: !OccursAt(d, Cut, j))
  {
    var base := BasePaths(framework, customPaths);
    var dirs := DirectoriesOf(base);
    forall d | d in Unique(dirs) ensures exists p | p in base :: d == DirectoryOf(p) {
      var i :| 0 <= i < |dirs| && dirs[i] == d;
      assert base[i] in base;
    }
    forall p | p in base ensures DirectoryOf(p) in Unique(dirs) {
      var i :| 0 <= i < |base| && base[i] == p;
      assert dirs[i] == DirectoryOf(p);
    }
  }

  /** With nothing to lint the commands are `eslint ` and `eslint  --fix`. */
  lemma LintCommandsEmpty()
    ensures GenerateLintCommands(None, [], false, false) == LintCommands("eslint ", "eslint  --fix")
  {
    assert CommandDirectories(None, []) == [];
    LintCommandsClosedForm(None, [], false, false);
  }

  /** A single base path gives `eslint` and that path's directory. */
  lemma LintCommandsOnePath(framework: Option<DetectedFramework>, customPaths: seq<string>, p: string)
    requires BasePaths(framework, customPaths) == [p]
    ensures GenerateLintCommands(framework, customPaths, false, false)
      == LintCommands("eslint " + DirectoryOf(p), "eslint " + DirectoryOf(p) + " --fix")
  {
    var d := DirectoryOf(p);
    assert DirectoriesOf([p]) == [d];
    assert AddAll(AddUnique([], d), [d][1..]) == [d];
    assert CommandDirectories(framework, customPaths) == [DirectoryOf(p)];
    LintCommandsClosedForm(framework, customPaths, false, false);
  }

  // The paths of the unit tests: a glob below `src` is cut to `src`, a path
  // without the separator is kept, and a glob below `custom/path` is cut to
  // `custom/path`.
  lemma DirectoryOfExamples()
    ensures DirectoryOf("src/**" + Cut) == "src"
    ensures DirectoryOf("src") == "src"
    ensures DirectoryOf("custom/path/**" + Cut) == "custom/path"
  {
    var a, c := "src/**" + Cut, "custom/path/**" + Cut;
    forall j | 0 <= j < 3 ensures !OccursAt(a, Cut, j) { CutAt(a, j); }
    CutAt(a, 3);
    SplitHeadAt(a, Cut, 3);
    forall j | 0 <= j <= 3 ensures !OccursAt("src", Cut, j) { CutAt("src", j); }
    SplitHeadNone("src", Cut);
    forall j | 0 <= j < 11 ensures !OccursAt(c, Cut, j) { CutAt(c, j); }
    CutAt(c, 11);
    SplitHeadAt(c, Cut, 11);
  }

  /** The separator occurs at `k` exactly when a `/` there is followed by a `*`. */
  lemma CutAt(s: string, k: nat)
    ensures OccursAt(s, Cut, k) <==> k + 1 < |s| && s[k] == '/' && s[k + 1] == '*'
  {
    if k + 1 < |s| && s[k] == '/' && s[k + 1] == '*' {
      assert s[k..k + 2] == Cut;
    }
  }
}
