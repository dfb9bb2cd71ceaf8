/** Which job-list file `main` reads: the first command-line argument, else the configured one. */
module JobPath {
  import opened Records

  /**
   * `osArgs` is the whole process argument list, the program name first.
   * Only the first argument after the program name is looked at.
   */
  function JobListPath(conf: Config, osArgs: seq<string>): (path: string)
    ensures |osArgs| > 1 ==> path == osArgs[1]
    ensures |osArgs| <= 1 ==> path == conf.mailsFile
  {
    if |osArgs| > 1 then osArgs[1] else conf.mailsFile
  }

  /** Arguments after the first one change nothing. */
  lemma ExtraArgsIgnored(conf: Config, osArgs: seq<string>, extra: seq<string>)
    requires |osArgs| >= 2
    ensures JobListPath(conf, osArgs + extra) == JobListPath(conf, osArgs)
  {
    assert (osArgs + extra)[1] == osArgs[1];
  }

  /** Once a path is given on the command line, the configuration plays no part. */
  lemma ArgumentOverridesConfig(conf1: Config, conf2: Config, osArgs: seq<string>)
    requires |osArgs| >= 2
    ensures JobListPath(conf1, osArgs) == JobListPath(conf2, osArgs)
  {
  }
}
