/** The five scan runners of vortex.py (audit_ssh, run_nmap, run_nikto,
    run_recon_ng, run_owasp_zap): where each one writes its report, and how
    it turns every failure into a returned error instead of an exception.
    The scanner process and the file system are abstract: the process is
    given as its outcome, and the file system as a map from path to text. */
module ScanOutput {
  datatype Option<T> = None | Some(value: T)

  datatype Scanner = SshAudit | Nmap | Nikto | ReconNg | OwaspZap

  /** The files on disk, by path, each with its text. A path that is absent
      does not exist. */
  type Files = map<string, string>

  /** The fixed file-name prefix of each runner's report: at least two
      characters, ending in an underscore, with no directory separator. */
  function Prefix(scanner: Scanner): (p: string)
    ensures |p| >= 2 && p[|p| - 1] == '_' && '/' !in p
  {
    match scanner
    case SshAudit => "ssh_audit_"
    case Nmap => "nmap_"
    case Nikto => "nikto_"
    case ReconNg => "recon_ng_"
    case OwaspZap => "owasp_zap_"
  }

  /** The report's extension: HTML for ZAP, plain text for the others. */
  function Extension(scanner: Scanner): (x: string)
    ensures |x| >= 4 && x[0] == '.' && '/' !in x
    ensures x == ".html" <==> scanner == OwaspZap
  {
    if scanner == OwaspZap then ".html" else ".txt"
  }

  /** The report's file name inside the project directory. It holds a
      directory separator exactly when the target does. */
  function FileName(scanner: Scanner, target: string): (n: string)
    ensures |n| == |Prefix(scanner)| + |target| + |Extension(scanner)|
    ensures '/' in n <==> '/' in target
  {
    Prefix(scanner) + target + Extension(scanner)
  }

  /** The path a runner opens for writing: the project directory, a slash and
      the file name, with the target inserted verbatim. */
  function OutputPath(projectDir: string, scanner: Scanner, target: string): (p: string)
    ensures |p| > |projectDir| && p[..|projectDir|] == projectDir && p[|projectDir|] == '/'
    ensures '/' !in target ==> '/' !in p[|projectDir| + 1..]
  {
    projectDir + "/" + FileName(scanner, target)
  }

  /** The file name begins with the scanner's prefix, ends with its
      extension, and holds the target verbatim in between. */
  lemma FileNameShape(scanner: Scanner, target: string)
    ensures var n := FileName(scanner, target);
      |n| == |Prefix(scanner)| + |target| + |Extension(scanner)| &&
      n[..|Prefix(scanner)|] == Prefix(scanner) &&
      n[|Prefix(scanner)|..|Prefix(scanner)| + |target|] == target &&
      n[|Prefix(scanner)| + |target|..] == Extension(scanner)
  {
  }

  /** Two distinct scanners' prefixes already differ in one of their first
      two characters, so neither prefix is a prefix of the other. */
  lemma PrefixesDiffer(s1: Scanner, s2: Scanner)
    requires s1 != s2
    ensures |Prefix(s1)| >= 2 && |Prefix(s2)| >= 2
    ensures Prefix(s1)[0] != Prefix(s2)[0] || Prefix(s1)[1] != Prefix(s2)[1]
  {
  }

  /** A file name opens with the first two characters of its prefix. */
  lemma FileNameHead(scanner: Scanner, target: string)
    ensures |Prefix(scanner)| >= 2 && |FileName(scanner, target)| >= 2
    ensures FileName(scanner, target)[0] == Prefix(scanner)[0]
    ensures FileName(scanner, target)[1] == Prefix(scanner)[1]
  {
  }

  /** Within one scanner, the file name determines the target. */
  lemma SameScannerSameTarget(scanner: Scanner, t1: string, t2: string)
    requires FileName(scanner, t1) == FileName(scanner, t2)
    ensures t1 == t2
  {
    FileNameShape(scanner, t1);
    FileNameShape(scanner, t2);
  }

  /** Distinct (scanner, target) pairs give distinct file names. */
  lemma FileNameInjective(s1: Scanner, t1: string, s2: Scanner, t2: string)
    requires FileName(s1, t1) == FileName(s2, t2)
    ensures s1 == s2 && t1 == t2
  {
    if s1 != s2 {
      FileNameHead(s1, t1);
      FileNameHead(s2, t2);
      PrefixesDiffer(s1, s2);
      assert false;
    }
    SameScannerSameTarget(s1, t1, t2);
  }

  /** Within one project directory, distinct (scanner, target) pairs are
      written to distinct paths: no runner overwrites another runner's
      report, nor its own report for another target. */
  lemma OutputPathInjective(projectDir: string, s1: Scanner, t1: string, s2: Scanner, t2: string)
    requires OutputPath(projectDir, s1, t1) == OutputPath(projectDir, s2, t2)
    ensures s1 == s2 && t1 == t2
  {
    var k := |projectDir + "/"|;
    assert FileName(s1, t1) == OutputPath(projectDir, s1, t1)[k..];
    assert FileName(s2, t2) == OutputPath(projectDir, s2, t2)[k..];
    FileNameInjective(s1, t1, s2, t2);
  }

  /** Across project directories the path is not injective: a target that
      contains a slash can reach a report of another directory. */
  lemma CrossDirectoryCollision()
    ensures OutputPath("a", Nmap, "/nmap_t") == OutputPath("a/nmap_", Nmap, "t")
  {
  }

  /** The Nmap report of 10.0.0.5 in project ./proj. */
  lemma NmapPathExample()
    ensures OutputPath("./proj", Nmap, "10.0.0.5") == "./proj/nmap_10.0.0.5.txt"
  {
  }

  /** A scanner's captured standard output, before or after decoding. */
  datatype Decoded = Text(text: string) | Undecodable(reason: string)

  /** What running the scanner process yields: it fails (it is not found, or
      exits with a non-zero status), or its output is captured. */
  datatype ProcessOutcome = ProcessFailed(reason: string) | Captured(output: Decoded)

  /** Whether opening the report path for writing succeeds. */
  datatype OpenOutcome = Opened | OpenFailed(reason: string)

  /** What a runner hands back: the decoded output, or the failure it caught. */
  datatype RunResult = Output(text: string) | Error(reason: string)

  datatype RunEffect = RunEffect(result: RunResult, files: Files)

  /** One runner call. The process runs first; on success the report path is
      opened for writing, which creates or empties it; then the output is
      decoded and written. The first step that fails ends the call with an
      Error carrying that failure, leaving behind whatever the earlier
      steps did. Nothing escapes the call. */
  function Run(scanner: Scanner, projectDir: string, target: string,
               process: ProcessOutcome, open: OpenOutcome, files: Files): (e: RunEffect)
    ensures e.result.Output? <==> process.Captured? && process.output.Text? && open.Opened?
    ensures e.result.Output? ==> e.result.text == process.output.text
    ensures e.files - {OutputPath(projectDir, scanner, target)} == files - {OutputPath(projectDir, scanner, target)}
    ensures process.ProcessFailed? ==> e == RunEffect(Error(process.reason), files)
    ensures process.Captured? && open.OpenFailed? ==> e == RunEffect(Error(open.reason), files)
    ensures process.Captured? && open.Opened? ==>
      var path := OutputPath(projectDir, scanner, target);
      path in e.files &&
      e.files[path] == (if e.result.Output? then e.result.text else "")
  {
    match process
    case ProcessFailed(reason) => RunEffect(Error(reason), files)
    case Captured(output) =>
      match open
      case OpenFailed(reason) => RunEffect(Error(reason), files)
      case Opened =>
        var path := OutputPath(projectDir, scanner, target);
        match output
        case Undecodable(reason) => RunEffect(Error(reason), files[path := ""])
        case Text(text) => RunEffect(Output(text), files[path := text])
  }

  /** The heading each runner puts before a caught failure. The handler of
      run_owasp_zap is not part of this model, so its heading is unknown. */
  function ErrorHeading(scanner: Scanner): (h: Option<string>)
    ensures h.Some? <==> scanner != OwaspZap
    ensures h.Some? ==> |h.value| > 6 && h.value[..6] == "Error " && h.value[|h.value| - 2..] == ": "
  {
    match scanner
    case SshAudit => Some("Error auditing SSH configuration: ")
    case Nmap => Some("Error running Nmap scan: ")
    case Nikto => Some("Error running Nikto scan: ")
    case ReconNg => Some("Error running Recon-ng: ")
    case OwaspZap => None
  }

  /** The string a runner returns to its caller, when it is known: the
      output untouched, or a message that opens with "Error " and ends with
      the text of the failure. */
  function Returned(scanner: Scanner, result: RunResult): (r: Option<string>)
    ensures result.Output? ==> r == Some(result.text)
    ensures result.Error? && scanner != OwaspZap ==>
      r.Some? && |r.value| > 6 + |result.reason| && r.value[..6] == "Error " &&
      r.value[|r.value| - |result.reason|..] == result.reason
    ensures r.None? <==> result.Error? && scanner == OwaspZap
  {
    match result
    case Output(text) => Some(text)
    case Error(reason) =>
      match ErrorHeading(scanner)
      case None => None
      case Some(heading) => Some(heading + reason)
  }

  /** What a runner other than ZAP hands back, in terms of what happened:
      the decoded output when the process ran, its output decoded and the
      report opened; otherwise an "Error ..." message ending with the reason
      given by the first step that failed. */
  lemma RunReturns(scanner: Scanner, projectDir: string, target: string,
                   process: ProcessOutcome, open: OpenOutcome, files: Files)
    requires scanner != OwaspZap
    ensures var r := Returned(scanner, Run(scanner, projectDir, target, process, open, files).result);
      var reason :=
        if process.ProcessFailed? then process.reason
        else if open.OpenFailed? then open.reason
        else if process.output.Undecodable? then process.output.reason
        else "";
      r.Some? &&
      (process.Captured? && process.output.Text? && open.Opened? ==> r.value == process.output.text) &&
      (!(process.Captured? && process.output.Text? && open.Opened?) ==>
        |r.value| > 6 + |reason| && r.value[..6] == "Error " &&
        r.value[|r.value| - |reason|..] == reason)
  {
  }

  /** The returned string does not tell success from failure: a scanner
      whose own output reads like the error heading returns the same string
      as a failed call. */
  lemma ReturnedIsAmbiguous(scanner: Scanner, reason: string)
    requires scanner != OwaspZap
    ensures Returned(scanner, Output(ErrorHeading(scanner).value + reason)) == Returned(scanner, Error(reason))
  {
  }

  /** Whenever a runner returns output, its report holds exactly that output. */
  lemma ReportMatchesOutput(scanner: Scanner, projectDir: string, target: string,
                            process: ProcessOutcome, open: OpenOutcome, files: Files)
    requires Run(scanner, projectDir, target, process, open, files).result.Output?
    ensures var e := Run(scanner, projectDir, target, process, open, files);
      OutputPath(projectDir, scanner, target) in e.files &&
      e.files[OutputPath(projectDir, scanner, target)] == e.result.text
  {
  }

  /** Output that cannot be decoded still leaves an empty report behind,
      because the file is opened before the output is decoded. */
  lemma UndecodableLeavesEmptyReport(scanner: Scanner, projectDir: string, target: string,
                                     reason: string, files: Files)
    ensures var e := Run(scanner, projectDir, target, Captured(Undecodable(reason)), Opened, files);
      e.result == Error(reason) &&
      e.files == files[OutputPath(projectDir, scanner, target) := ""]
  {
  }

  /** Running again with the same outcomes changes nothing more: opening for
      writing empties the report before it is written. */
  lemma RunIdempotent(scanner: Scanner, projectDir: string, target: string,
                      process: ProcessOutcome, open: OpenOutcome, files: Files)
    ensures var once := Run(scanner, projectDir, target, process, open, files);
      Run(scanner, projectDir, target, process, open, once.files) == once
  {
  }

  /** Different scanners run on one project directory keep each other's
      reports: after the first has written its report, the second leaves it
      as it was. */
  lemma RunsDoNotClobber(projectDir: string, s1: Scanner, t1: string, p1: ProcessOutcome, o1: OpenOutcome,
                         s2: Scanner, t2: string, p2: ProcessOutcome, o2: OpenOutcome,
                         files: Files)
    requires s1 != s2 || t1 != t2
    ensures var first := Run(s1, projectDir, t1, p1, o1, files);
      var second := Run(s2, projectDir, t2, p2, o2, first.files);
      var path := OutputPath(projectDir, s1, t1);
      (path in second.files <==> path in first.files) &&
      (path in first.files ==> second.files[path] == first.files[path])
  {
    var path1 := OutputPath(projectDir, s1, t1);
    var path2 := OutputPath(projectDir, s2, t2);
    if path1 == path2 {
      OutputPathInjective(projectDir, s1, t1, s2, t2);
    }
    var first := Run(s1, projectDir, t1, p1, o1, files);
    var second := Run(s2, projectDir, t2, p2, o2, first.files);
    assert path1 in second.files - {path2} <==> path1 in first.files - {path2};
  }
}
