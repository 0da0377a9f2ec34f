/**
 * `Config::new` (src/config.rs): how an explicit shell name and an explicit
 * history-file path combine with detection and the default path. What
 * detection and the default path read from the process (SHELL, `ps`, the
 * home directory) is passed in as an `Environment`.
 */
module Configuration {
  import opened Wrappers
  import opened Errors
  import opened Shell

  datatype Config = Config(shellType: ShellType, historyFile: string)

  /** What `ShellType::detect` and `dirs::home_dir` would read from the process. */
  datatype Environment = Environment(shellVar: Option<string>, psOutput: Option<string>, home: Option<string>)

  /** An explicit name `from_name` accepts, or detection when there is none. */
  predicate ShellResolves(shell: Option<string>) {
    shell.None? || FromName(shell.value).Some?
  }

  /** `Config::new`. */
  function New(shell: Option<string>, historyFile: Option<string>, env: Environment): (r: Result<Config, Error>)
    // an explicit name no shell matches is a ShellDetection error
    ensures !ShellResolves(shell) ==> r == Err(ShellDetection("Unsupported shell type: " + shell.value))
    // otherwise the only failure is a missing home directory when no path was given
    ensures ShellResolves(shell) ==>
      (r.Err? <==> historyFile.None? && env.home.None?)
    ensures ShellResolves(shell) && r.Err? ==> r.error == Other(NO_HOME_MESSAGE)
    // the shell: the explicit one, else the detected one
    ensures r.Ok? && shell.Some? ==> r.value.shellType == FromName(shell.value).value
    ensures r.Ok? && shell.None? ==> r.value.shellType == Detect(env.shellVar, env.psOutput).value
    // the path: the explicit one whatever the shell, else the shell's default
    ensures r.Ok? && historyFile.Some? ==> r.value.historyFile == historyFile.value
    ensures r.Ok? && historyFile.None? ==>
      r.value.historyFile == Join(env.home.value, HistoryFileName(r.value.shellType))
  {
    var shellType :- match shell
      case Some(name) =>
        (match FromName(name)
         case Some(s) => Ok(s)
         case None => Err(ShellDetection("Unsupported shell type: " + name)))
      case None => Detect(env.shellVar, env.psOutput);
    var path :- match historyFile
      case Some(p) => Ok(p)
      case None => DefaultHistoryPath(shellType, env.home);
    Ok(Config(shellType, path))
  }

  /** An explicit "bash" and an explicit path are taken as given, whatever the environment (test of src/config.rs). */
  lemma ExplicitValues(shell: string, path: string, env: Environment)
    requires shell == "bash" && path == "/tmp/test_history"
    ensures New(Some(shell), Some(path), env) == Ok(Config(Bash, path))
  {
    FromNameBash(shell);
  }
}
