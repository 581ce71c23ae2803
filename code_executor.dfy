/** The sandboxed runner of one test case: the language table, the command
    templates, the Java entry-class search and the classification of what the
    compiler and the program did into a verdict. Files, child processes and
    the clock are not modelled: what they answered is the `SandboxRun`
    argument, and `Plan` states what the runner asks of them. */
module CodeExecutor {
  import opened Strings
  import opened SubmissionModels

  /** Per-language default wall-clock limit in seconds (settings). */
  const CODE_EXECUTION_TIMEOUT: int := 10
  /** Default memory limit in MB (settings); computed, never enforced. */
  const CODE_EXECUTION_MEMORY_LIMIT: int := 128
  /** The fixed ceiling on a compiler run, in seconds. */
  const COMPILE_TIMEOUT: int := 30

  /** One piece of an argv word template: literal text or a `{...}` slot. */
  datatype Piece = Lit(text: string) | FilenameSlot | ExecutableSlot | ClassnameSlot

  /** An argv template, one word per element. */
  type Template = seq<seq<Piece>>

  datatype LanguageConfig = LanguageConfig(
    extension: string,
    compileCommand: Option<Template>,
    runCommand: Template,
    timeout: int)

  const PYTHON_CONFIG: LanguageConfig :=
    LanguageConfig(".py", None, [[Lit("python3")], [FilenameSlot]], CODE_EXECUTION_TIMEOUT)
  const CPP_CONFIG: LanguageConfig :=
    LanguageConfig(".cpp", Some([[Lit("g++")], [Lit("-o")], [ExecutableSlot], [FilenameSlot], [Lit("-std=c++17")]]),
                   [[Lit("./"), ExecutableSlot]], CODE_EXECUTION_TIMEOUT)
  const C_CONFIG: LanguageConfig :=
    LanguageConfig(".c", Some([[Lit("gcc")], [Lit("-o")], [ExecutableSlot], [FilenameSlot]]),
                   [[Lit("./"), ExecutableSlot]], CODE_EXECUTION_TIMEOUT)
  const JAVA_CONFIG: LanguageConfig :=
    LanguageConfig(".java", Some([[Lit("javac")], [FilenameSlot]]), [[Lit("java")], [ClassnameSlot]],
                   CODE_EXECUTION_TIMEOUT)

  /** The language table. */
  function LanguageConfigs(): map<string, LanguageConfig> {
    map["python" := PYTHON_CONFIG, "cpp" := CPP_CONFIG, "c" := C_CONFIG, "java" := JAVA_CONFIG]
  }

  function LookupLanguage(language: string): (r: Option<LanguageConfig>)
    ensures r.Some? <==> language in {"python", "cpp", "c", "java"}
    ensures r.Some? ==> r.value.timeout == CODE_EXECUTION_TIMEOUT
    ensures r.Some? ==> (r.value.compileCommand.None? <==> language == "python")
  {
    if language in LanguageConfigs() then Some(LanguageConfigs()[language]) else None
  }

  /** The values `str.format` substitutes for the three slots. */
  datatype Bindings = Bindings(filename: string, executable: string, classname: string)

  function FormatWord(word: seq<Piece>, b: Bindings): string {
    if |word| == 0 then ""
    else
      PieceText(word[0], b) + FormatWord(word[1..], b)
  }

  function PieceText(p: Piece, b: Bindings): string {
    match p
    case Lit(t) => t
    case FilenameSlot => b.filename
    case ExecutableSlot => b.executable
    case ClassnameSlot => b.classname
  }

  function FormatCommand(t: Template, b: Bindings): (argv: seq<string>)
    ensures |argv| == |t|
    ensures forall i :: 0 <= i < |t| ==> argv[i] == FormatWord(t[i], b)
  {
    if |t| == 0 then [] else [FormatWord(t[0], b)] + FormatCommand(t[1..], b)
  }

  /** os.path.join for a directory without a trailing slash and a plain
      file name. */
  function JoinPath(dir: string, name: string): string {
    dir + "/" + name
  }

  // ---------------------------------------------------------------------
  // The Java entry class: the first match of  public\s+class\s+(\w+)

  /** `\w`, on ASCII. */
  predicate IsWordChar(c: char) {
    ('a' <= c <= 'z') || ('A' <= c <= 'Z') || ('0' <= c <= '9') || c == '_'
  }

  /** Length of the run of whitespace starting at `i`. */
  function SpaceRun(s: string, i: nat): (n: nat)
    requires i <= |s|
    ensures i + n <= |s|
    ensures forall k :: i <= k < i + n ==> IsSpace(s[k])
    ensures i + n == |s| || !IsSpace(s[i + n])
    decreases |s| - i
  {
    if i < |s| && IsSpace(s[i]) then 1 + SpaceRun(s, i + 1) else 0
  }

  /** Length of the run of word characters starting at `i`. */
  function WordRun(s: string, i: nat): (n: nat)
    requires i <= |s|
    ensures i + n <= |s|
    ensures forall k :: i <= k < i + n ==> IsWordChar(s[k])
    ensures i + n == |s| || !IsWordChar(s[i + n])
    decreases |s| - i
  {
    if i < |s| && IsWordChar(s[i]) then 1 + WordRun(s, i + 1) else 0
  }

  /** The group the pattern captures when a match starts at `i`. Greedy
      `\s+` cannot give a character back to "class" or to `\w+`, because
      neither starts with whitespace, so the match is unique. */
  function MatchAt(s: string, i: nat): (r: Option<string>)
    requires i <= |s|
    ensures r.Some? ==> |r.value| > 0 && forall k :: 0 <= k < |r.value| ==> IsWordChar(r.value[k])
  {
    if !StartsWith(s[i..], "public") then None
    else
      var a := SpaceRun(s, i + 6);
      var j := i + 6 + a;
      if a == 0 || !StartsWith(s[j..], "class") then None
      else
        var b := SpaceRun(s, j + 5);
        var w := WordRun(s, j + 5 + b);
        if b == 0 || w == 0 then None
        else Some(s[j + 5 + b..j + 5 + b + w])
  }

  /** re.search from position `i`: the match at the leftmost position that
      has one. */
  function SearchFrom(s: string, i: nat): (r: Option<string>)
    requires i <= |s| + 1
    ensures r.None? <==> forall k :: i <= k <= |s| ==> MatchAt(s, k).None?
    ensures r.Some? ==> exists k :: i <= k <= |s| && MatchAt(s, k) == r
                          && forall k' :: i <= k' < k ==> MatchAt(s, k').None?
    decreases |s| + 1 - i
  {
    if i > |s| then None
    else if MatchAt(s, i).Some? then MatchAt(s, i)
    else SearchFrom(s, i + 1)
  }

  /** The class name taken from the leftmost `public class X`, or "Solution"
      when there is none; never empty. */
  function ExtractJavaClassName(code: string): (name: string)
    ensures |name| > 0
    ensures forall k :: 0 <= k < |name| ==> IsWordChar(name[k])
    ensures (forall k :: 0 <= k <= |code| ==> MatchAt(code, k).None?) ==> name == "Solution"
    ensures (exists k :: 0 <= k <= |code| && MatchAt(code, k).Some?) ==>
              exists k :: 0 <= k <= |code| && MatchAt(code, k) == Some(name)
                          && forall k' :: 0 <= k' < k ==> MatchAt(code, k').None?
  {
    match SearchFrom(code, 0)
    case Some(n) => n
    case None => "Solution"
  }

  // ---------------------------------------------------------------------
  // What the runner asks of the operating system

  /** Python's `x or default` on a nullable integer column. */
  function OrDefault(x: Option<int>, default: int): (r: int)
    ensures (x == None || x == Some(0)) ==> r == default
    ensures x.Some? && x.value != 0 ==> r == x.value
  {
    match x
    case None => default
    case Some(v) => if v == 0 then default else v
  }

  /** The files written, the commands issued with their ceilings, and the
      stdin given, for one supported language. */
  datatype Invocation = Invocation(
    writtenFiles: seq<string>,
    sourceFile: string,
    compileCommand: Option<seq<string>>,
    compileTimeout: int,
    runCommand: seq<string>,
    stdin: string,
    timeLimit: int,
    memoryLimit: int)

  function Plan(tempDir: string, code: string, language: string, config: LanguageConfig,
                inputData: string, timeLimit: Option<int>, memoryLimit: Option<int>): (inv: Invocation)
    // the source file is the last file written; java writes a second copy
    // named after its class, every other language writes one file
    ensures 1 <= |inv.writtenFiles| <= 2 && inv.sourceFile == inv.writtenFiles[|inv.writtenFiles| - 1]
    ensures inv.writtenFiles[0] == JoinPath(tempDir, "solution" + config.extension)
    ensures |inv.writtenFiles| == 2 <==> config.compileCommand.Some? && language == "java"
    // a compile command exactly when the language has one, under the fixed ceiling
    ensures inv.compileCommand.Some? <==> config.compileCommand.Some?
    ensures inv.compileTimeout == COMPILE_TIMEOUT
    ensures inv.stdin == inputData
  {
    var first := JoinPath(tempDir, "solution" + config.extension);
    var isJava := config.compileCommand.Some? && language == "java";
    var className := if isJava then ExtractJavaClassName(code) else "solution";
    var source := if isJava then JoinPath(tempDir, className + ".java") else first;
    var written := if isJava then [first, source] else [first];
    var compile := match config.compileCommand
      case None => None
      case Some(t) => Some(FormatCommand(t, Bindings(source, JoinPath(tempDir, "solution"), className)));
    var run := FormatCommand(config.runCommand, Bindings(source, "solution", className));
    Invocation(written, source, compile, COMPILE_TIMEOUT, run, inputData,
               OrDefault(timeLimit, config.timeout), OrDefault(memoryLimit, CODE_EXECUTION_MEMORY_LIMIT))
  }

  /** What the compiler run did: it exited, or subprocess.run raised (its
      30-second ceiling expired, or the compiler could not be started). */
  datatype CompileOutcome = CompileExited(exitCode: int, stderr: string) | CompileRaised(message: string)

  /** What the program run did: it exited, communicate() hit the time
      limit, or starting or talking to the process raised. */
  datatype RunOutcome =
    | RunExited(exitCode: int, stdout: string, stderr: string, elapsedMs: int)
    | RunTimedOut
    | RunRaised(message: string)

  /** The operating system's answers to one invocation. `writeError` is the
      message of a failed source-file write, if one failed. */
  datatype SandboxRun = SandboxRun(writeError: Option<string>, compile: CompileOutcome, run: RunOutcome)

  /** The dictionary execute_code returns. */
  datatype ExecResult = ExecResult(verdict: Verdict, output: string, error: string, executionTimeMs: int, memoryUsedKb: int)

  /** The classification of the program run, once the source is written
      and compiled. */
  function RunPhase(inv: Invocation, run: RunOutcome): (r: ExecResult)
    ensures r.memoryUsedKb == 0
    ensures r.verdict == OK <==> run.RunExited? && run.exitCode == 0
    ensures r.verdict == TLE <==> run.RunTimedOut?
    ensures r.verdict == RTE <==> run.RunRaised? || (run.RunExited? && run.exitCode != 0)
    // OK keeps the stripped output, the stderr and the measured time
    ensures r.verdict == OK ==>
              r.output == Strip(run.stdout) && IsStripped(r.output)
              && r.error == run.stderr && r.executionTimeMs == run.elapsedMs
    // a non-zero exit keeps stdout unstripped
    ensures run.RunExited? && run.exitCode != 0 ==>
              r.output == run.stdout && r.error == run.stderr && r.executionTimeMs == run.elapsedMs
    // a timeout reports the limit in milliseconds
    ensures r.verdict == TLE ==>
              r.output == "" && r.error == "Time limit exceeded" && r.executionTimeMs == inv.timeLimit * 1000
    // a raising run reports its message and no time
    ensures run.RunRaised? ==> r.output == "" && r.error == run.message && r.executionTimeMs == 0
  {
    match run
    case RunRaised(msg) => ExecResult(RTE, "", msg, 0, 0)
    case RunTimedOut => ExecResult(TLE, "", "Time limit exceeded", inv.timeLimit * 1000, 0)
    case RunExited(rc, out, err, ms) =>
      if rc != 0 then ExecResult(RTE, out, err, ms, 0)
      else ExecResult(OK, Strip(out), err, ms, 0)
  }

  /** True when the compile step of a supported language lets the run go
      ahead: there is none, or the compiler exited with status 0. */
  predicate CompilePasses(config: LanguageConfig, c: CompileOutcome) {
    config.compileCommand.None? || (c.CompileExited? && c.exitCode == 0)
  }

  /** execute_code: run one test case and classify the outcome. */
  function ExecuteCode(tempDir: string, code: string, language: string, inputData: string,
                       timeLimit: Option<int>, memoryLimit: Option<int>, os: SandboxRun): (r: ExecResult)
    // no memory accounting: MLE never arises, and WA is the grading job's call
    ensures r.memoryUsedKb == 0 && r.verdict != MLE && r.verdict != WA
    // an unknown language is rejected before anything is written
    ensures LookupLanguage(language).None? ==>
              r == ExecResult(CE, "", "Unsupported language: " + language, 0, 0)
    ensures LookupLanguage(language).Some? ==>
              var config := LookupLanguage(language).value;
              var inv := Plan(tempDir, code, language, config, inputData, timeLimit, memoryLimit);
              // CE only from a compiler that exited non-zero, carrying its stderr
              && (r.verdict == CE <==>
                    os.writeError.None? && config.compileCommand.Some?
                    && os.compile.CompileExited? && os.compile.exitCode != 0)
              && (r.verdict == CE ==> r == ExecResult(CE, "", os.compile.stderr, 0, 0))
              // TLE exactly when the run hit its limit; the time is the limit
              && (r.verdict == TLE <==>
                    os.writeError.None? && CompilePasses(config, os.compile) && os.run.RunTimedOut?)
              && (r.verdict == TLE ==>
                    r == ExecResult(TLE, "", "Time limit exceeded", inv.timeLimit * 1000, 0))
              // OK exactly when every step succeeded; the output is stripped stdout
              && (r.verdict == OK <==>
                    os.writeError.None? && CompilePasses(config, os.compile)
                    && os.run.RunExited? && os.run.exitCode == 0)
              && (r.verdict == OK ==>
                    r.output == Strip(os.run.stdout) && IsStripped(r.output)
                    && r.error == os.run.stderr && r.executionTimeMs == os.run.elapsedMs)
              // a program that exits non-zero gives RTE with its unstripped stdout
              && (os.writeError.None? && CompilePasses(config, os.compile)
                  && os.run.RunExited? && os.run.exitCode != 0 ==>
                    r == ExecResult(RTE, os.run.stdout, os.run.stderr, os.run.elapsedMs, 0))
              // a run that raises gives RTE with the message and no time
              && (os.writeError.None? && CompilePasses(config, os.compile) && os.run.RunRaised? ==>
                    r == ExecResult(RTE, "", os.run.message, 0, 0))
              // a write failure or a raising compiler ends in RTE, not CE
              && (os.writeError.Some? ==> r == ExecResult(RTE, "", os.writeError.value, 0, 0))
              && (os.writeError.None? && config.compileCommand.Some? && os.compile.CompileRaised? ==>
                    r == ExecResult(RTE, "", os.compile.message, 0, 0))
  {
    match LookupLanguage(language)
    case None => ExecResult(CE, "", "Unsupported language: " + language, 0, 0)
    case Some(config) =>
      var inv := Plan(tempDir, code, language, config, inputData, timeLimit, memoryLimit);
      if os.writeError.Some? then ExecResult(RTE, "", os.writeError.value, 0, 0)
      else if config.compileCommand.Some? then
        if language == "java" && ExtractJavaClassName(code) == "" then
          ExecResult(CE, "", "No public class found in Java code", 0, 0)
        else
          match os.compile
          case CompileRaised(msg) => ExecResult(RTE, "", msg, 0, 0)
          case CompileExited(rc, err) =>
            if rc != 0 then ExecResult(CE, "", err, 0, 0) else RunPhase(inv, os.run)
      else RunPhase(inv, os.run)
  }

  // ---------------------------------------------------------------------
  // Properties of the table and the templates

  /** How a word made of one piece, or of a literal and one slot, is
      formatted. */
  lemma FormatSmallWords(lit: string, p: Piece, b: Bindings)
    ensures FormatWord([p], b) == PieceText(p, b)
    ensures FormatWord([Lit(lit), p], b) == lit + PieceText(p, b)
  {
    assert [p][1..] == [];
    assert [Lit(lit), p][1..] == [p];
    assert PieceText(p, b) + "" == PieceText(p, b);
  }

  /** The four supported languages and their table entries. */
  lemma LanguageTable()
    ensures LookupLanguage("python") == Some(PYTHON_CONFIG)
    ensures LookupLanguage("cpp") == Some(CPP_CONFIG)
    ensures LookupLanguage("c") == Some(C_CONFIG)
    ensures LookupLanguage("java") == Some(JAVA_CONFIG)
  {
  }

  /** The python command: no compile step, the interpreter on the source. */
  lemma PythonCommands(tempDir: string, code: string, inputData: string,
                       timeLimit: Option<int>, memoryLimit: Option<int>)
    ensures var inv := Plan(tempDir, code, "python", PYTHON_CONFIG, inputData, timeLimit, memoryLimit);
            && inv.writtenFiles == [tempDir + "/solution.py"]
            && inv.compileCommand == None
            && inv.runCommand == ["python3", tempDir + "/solution.py"]
  {
    var config := PYTHON_CONFIG;
    assert JoinPath(tempDir, "solution" + ".py") == tempDir + "/solution.py";
    var b := Bindings(tempDir + "/solution.py", "solution", "solution");
    FormatSmallWords("", Lit("python3"), b);
    FormatSmallWords("", FilenameSlot, b);
  }

  /** The run command of the compiled languages: ./solution, whatever the
      file name and class name. */
  lemma NativeRunCommand(filename: string, classname: string)
    ensures FormatCommand(CPP_CONFIG.runCommand, Bindings(filename, "solution", classname)) == ["./solution"]
    ensures C_CONFIG.runCommand == CPP_CONFIG.runCommand
  {
    var rb := Bindings(filename, "solution", classname);
    FormatSmallWords("./", ExecutableSlot, rb);
    assert "./" + "solution" == "./solution";
  }

  /** The C++ commands: g++ builds `solution` in the work directory, which
      then runs as ./solution. */
  lemma CppCommands(tempDir: string, code: string, inputData: string,
                    timeLimit: Option<int>, memoryLimit: Option<int>)
    ensures var inv := Plan(tempDir, code, "cpp", CPP_CONFIG, inputData, timeLimit, memoryLimit);
            && inv.writtenFiles == [tempDir + "/solution.cpp"]
            && inv.compileCommand == Some(["g++", "-o", tempDir + "/solution", tempDir + "/solution.cpp", "-std=c++17"])
            && inv.runCommand == ["./solution"]
  {
    var src := tempDir + "/solution.cpp";
    var exe := tempDir + "/solution";
    assert JoinPath(tempDir, "solution" + ".cpp") == src;
    assert JoinPath(tempDir, "solution") == exe;
    var cb := Bindings(src, exe, "solution");
    assert FormatCommand(CPP_CONFIG.compileCommand.value, cb) == ["g++", "-o", exe, src, "-std=c++17"] by {
      FormatSmallWords("", Lit("g++"), cb);
      FormatSmallWords("", Lit("-o"), cb);
      FormatSmallWords("", ExecutableSlot, cb);
      FormatSmallWords("", FilenameSlot, cb);
      FormatSmallWords("", Lit("-std=c++17"), cb);
    }
    NativeRunCommand(src, "solution");
  }

  /** The C commands: as for C++, with gcc and no standard flag. */
  lemma CCommands(tempDir: string, code: string, inputData: string,
                  timeLimit: Option<int>, memoryLimit: Option<int>)
    ensures var inv := Plan(tempDir, code, "c", C_CONFIG, inputData, timeLimit, memoryLimit);
            && inv.writtenFiles == [tempDir + "/solution.c"]
            && inv.compileCommand == Some(["gcc", "-o", tempDir + "/solution", tempDir + "/solution.c"])
            && inv.runCommand == ["./solution"]
  {
    var src := tempDir + "/solution.c";
    var exe := tempDir + "/solution";
    assert JoinPath(tempDir, "solution" + ".c") == src;
    assert JoinPath(tempDir, "solution") == exe;
    var cb := Bindings(src, exe, "solution");
    assert FormatCommand(C_CONFIG.compileCommand.value, cb) == ["gcc", "-o", exe, src] by {
      FormatSmallWords("", Lit("gcc"), cb);
      FormatSmallWords("", Lit("-o"), cb);
      FormatSmallWords("", ExecutableSlot, cb);
      FormatSmallWords("", FilenameSlot, cb);
    }
    NativeRunCommand(src, "solution");
  }

  /** The Java commands: the source is written as solution.java and again as
      <Class>.java, javac compiles the latter and `java <Class>` runs it. */
  lemma JavaCommands(tempDir: string, code: string, inputData: string,
                     timeLimit: Option<int>, memoryLimit: Option<int>)
    ensures var inv := Plan(tempDir, code, "java", JAVA_CONFIG, inputData, timeLimit, memoryLimit);
            var cls := ExtractJavaClassName(code);
            && inv.writtenFiles == [tempDir + "/solution.java", tempDir + "/" + cls + ".java"]
            && inv.compileCommand == Some(["javac", tempDir + "/" + cls + ".java"])
            && inv.runCommand == ["java", cls]
  {
    var config := JAVA_CONFIG;
    assert JoinPath(tempDir, "solution" + ".java") == tempDir + "/solution.java";
    assert JoinPath(tempDir, "solution") == tempDir + "/solution";
    var cls := ExtractJavaClassName(code);
    var src := tempDir + "/" + cls + ".java";
    assert JoinPath(tempDir, cls + ".java") == src;
    var cb := Bindings(src, tempDir + "/solution", cls);
    FormatSmallWords("", Lit("javac"), cb);
    FormatSmallWords("", FilenameSlot, cb);
    var rb := Bindings(src, "solution", cls);
    FormatSmallWords("", Lit("java"), rb);
    FormatSmallWords("", ClassnameSlot, rb);
    var inv := Plan(tempDir, code, "java", config, inputData, timeLimit, memoryLimit);
    assert inv.sourceFile == src;
    assert inv.compileCommand == Some(FormatCommand(config.compileCommand.value, cb));
    assert FormatCommand(config.compileCommand.value, cb) == ["javac", src];
    assert inv.runCommand == FormatCommand(config.runCommand, rb);
    assert FormatCommand(config.runCommand, rb) == ["java", cls];
  }

  /** The compile step's ceiling and command do not depend on the test case's
      limits; the run's limit falls back to the language default when the
      case gives none or 0. */
  lemma LimitsOfPlan(tempDir: string, code: string, language: string, inputData: string,
                     t1: Option<int>, m1: Option<int>, t2: Option<int>, m2: Option<int>)
    requires LookupLanguage(language).Some?
    ensures var config := LookupLanguage(language).value;
            var p1 := Plan(tempDir, code, language, config, inputData, t1, m1);
            var p2 := Plan(tempDir, code, language, config, inputData, t2, m2);
            && p1.compileTimeout == p2.compileTimeout == COMPILE_TIMEOUT
            && p1.compileCommand == p2.compileCommand && p1.runCommand == p2.runCommand
            && ((t1 == None || t1 == Some(0)) ==> p1.timeLimit == CODE_EXECUTION_TIMEOUT)
            && ((m1 == None || m1 == Some(0)) ==> p1.memoryLimit == CODE_EXECUTION_MEMORY_LIMIT)
  {
  }

  const MAIN_SOURCE: string := "public class Main {}"

  lemma MainSourceSpaces()
    ensures SpaceRun(MAIN_SOURCE, 6) == 1 && SpaceRun(MAIN_SOURCE, 12) == 1
  {
    assert MAIN_SOURCE[6] == ' ' && MAIN_SOURCE[7] == 'c';
    assert MAIN_SOURCE[12] == ' ' && MAIN_SOURCE[13] == 'M';
    assert SpaceRun(MAIN_SOURCE, 7) == 0;
    assert SpaceRun(MAIN_SOURCE, 13) == 0;
  }

  lemma MainSourceWord()
    ensures WordRun(MAIN_SOURCE, 13) == 4
  {
    assert MAIN_SOURCE[13..18] == "Main ";
    assert WordRun(MAIN_SOURCE, 17) == 0;
  }

  lemma MainSourceMatch()
    ensures MatchAt(MAIN_SOURCE, 0) == Some("Main")
  {
    var s := MAIN_SOURCE;
    MainSourceSpaces();
    MainSourceWord();
    assert s[0..][..6] == "public";
    assert s[7..][..5] == "class";
    assert s[13..17] == "Main";
  }

  /** A source with a public class is compiled under that class's name. */
  lemma JavaClassNameFound()
    ensures ExtractJavaClassName(MAIN_SOURCE) == "Main"
  {
    MainSourceMatch();
    assert SearchFrom(MAIN_SOURCE, 0) == Some("Main");
  }

  /** A source without `public class` is compiled as Solution.java. */
  lemma JavaClassNameDefault()
    ensures ExtractJavaClassName("class Main {}") == "Solution"
  {
    var t := "class Main {}";
    forall k | 0 <= k <= |t| ensures MatchAt(t, k).None? {
      if |t[k..]| >= 6 { assert t[k..][0] != 'p'; }
    }
  }
}
