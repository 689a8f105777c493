/** The command-line check at the top of the script: find the script's own
    path among the process arguments, then take the next two arguments as
    the input and output directories. */
module Args {
  import opened Wrappers
  import opened Text

  /** The suffix that identifies the script's own path. */
  const ScriptSuffix := "index.js"

  /** The directories the run works on. */
  datatype Invocation = Invocation(inDir: string, outDir: string)

  /** The same, as the unchecked argument list can leave it: the output
      directory may be `undefined`. */
  datatype LooseInvocation = LooseInvocation(inDir: string, outDir: Option<string>)

  /** The two ways the check exits with status 1. */
  datatype ArgError = ScriptNotFound | MissingDirectories

  function Message(e: ArgError): string
  {
    match e
    case ScriptNotFound => "I don't know how this happens. Submit an issue at github.com/prosif/glob"
    case MissingDirectories => "Invalid params. Input and output directory required"
  }

  /** `args.findIndex(a => a.endsWith(suffix))`: the first match, or -1. */
  function FindIndex(args: seq<string>, suffix: string): (r: int)
    ensures -1 <= r < |args|
    ensures r == -1 <==> forall k :: 0 <= k < |args| ==> !EndsWith(args[k], suffix)
    ensures r >= 0 ==> EndsWith(args[r], suffix)
    ensures r >= 0 ==> forall k :: 0 <= k < r ==> !EndsWith(args[k], suffix)
  {
    if args == [] then -1
    else if EndsWith(args[0], suffix) then 0
    else
      var r := FindIndex(args[1..], suffix);
      if r == -1 then -1 else r + 1
  }

  /** The check as the script writes it: `args.length < idx + 2` only makes
      sure that the input directory is there. */
  function CheckArgsAsWritten(args: seq<string>): (r: Result<LooseInvocation, ArgError>)
    ensures r == Failure(ScriptNotFound) <==> forall k :: 0 <= k < |args| ==> !EndsWith(args[k], ScriptSuffix)
    ensures r == Failure(MissingDirectories) <==>
              exists k :: 0 <= k < |args| && EndsWith(args[k], ScriptSuffix) && |args| < FindIndex(args, ScriptSuffix) + 2
    ensures r.Success? ==>
              var idx := FindIndex(args, ScriptSuffix);
              && idx + 2 <= |args|
              && r.value.inDir == args[idx + 1]
              && (r.value.outDir == if idx + 3 <= |args| then Some(args[idx + 2]) else None)
  {
    var idx := FindIndex(args, ScriptSuffix);
    if idx == -1 then Failure(ScriptNotFound)
    else if |args| < idx + 2 then Failure(MissingDirectories)
    else Success(LooseInvocation(args[idx + 1], if idx + 2 < |args| then Some(args[idx + 2]) else None))
  }

  /** The script's path followed by only one directory passes the check as
      written, leaving the output directory undefined. */
  lemma AsWrittenAcceptsMissingOutDir()
    ensures CheckArgsAsWritten(["node", "/usr/lib/glob/index.js", "notes"]) ==
            Success(LooseInvocation("notes", None))
  {
  }

  /** The check as its error message states it: both directories must
      follow the script's path. This is the check the rest of the model
      uses. */
  function CheckArgs(args: seq<string>): (r: Result<Invocation, ArgError>)
    ensures r == Failure(ScriptNotFound) <==> forall k :: 0 <= k < |args| ==> !EndsWith(args[k], ScriptSuffix)
    ensures r.Success? <==>
              exists k :: 0 <= k < |args| && EndsWith(args[k], ScriptSuffix) && FindIndex(args, ScriptSuffix) + 3 <= |args|
    ensures r.Success? ==>
              var idx := FindIndex(args, ScriptSuffix);
              r.value == Invocation(args[idx + 1], args[idx + 2])
  {
    var idx := FindIndex(args, ScriptSuffix);
    if idx == -1 then Failure(ScriptNotFound)
    else if |args| < idx + 3 then Failure(MissingDirectories)
    else Success(Invocation(args[idx + 1], args[idx + 2]))
  }

  /** The corrected check accepts exactly what the written one accepts with
      an output directory present, and refuses what the written one lets
      through without one. */
  lemma CheckArgsRefinesAsWritten(args: seq<string>)
    ensures CheckArgs(args).Success? <==>
              CheckArgsAsWritten(args).Success? && CheckArgsAsWritten(args).value.outDir.Some?
    ensures CheckArgs(args).Success? ==>
              CheckArgsAsWritten(args) ==
              Success(LooseInvocation(CheckArgs(args).value.inDir, Some(CheckArgs(args).value.outDir)))
  {
  }
}
