/** The command line of `main` in main.go: two arguments, an input and an
    output path, and the automatic choice between reading the first argument
    as a literal bit string and reading it as the path of a text file.

    The file system is a parameter: a map from path to file contents. Only
    the input side can fail here (a path with no file); creating and writing
    the output file always succeed in this model. */
module Cli {
  import opened Bytes
  import opened BitString
  import opened PackSpec
  import opened Packer

  /** Which conversion `main` chose. */
  datatype Mode = Literal | TextFile

  /** How a run ends. The first two exit with status 1. */
  datatype Outcome =
    | Usage
    | OpenFailed(path: seq<char>)
    | Converted(mode: Mode, outputPath: seq<char>, bytes: seq<byte>,
                totalBytesWritten: nat, paddingNeeded: nat)

  /** The exit status: zero only after a conversion. */
  function ExitStatus(o: Outcome): int {
    if o.Converted? then 0 else 1
  }

  /** `main`: check the argument count, then convert the first argument as
      a bit string if it is one, and otherwise as the path of a text file.
      `args[0]` is the program name, as in `os.Args`. The exit status is 0
      exactly when there were enough arguments and the first was either a
      bit string or the path of an existing file. */
  method Run(args: seq<seq<char>>, files: map<seq<char>, seq<char>>) returns (o: Outcome)
    ensures |args| < 3 <==> o == Usage
    ensures |args| >= 3 && (|args[1]| > 0 && forall i :: 0 <= i < |args[1]| ==> IsBit(args[1][i])) ==>
              && o.Converted? && o.mode == Literal && o.outputPath == args[2]
              && o.bytes == Pack(args[1])
              && o.totalBytesWritten == |o.bytes|
              && o.paddingNeeded == Padding(|args[1]|)
    ensures |args| >= 3 && !(|args[1]| > 0 && forall i :: 0 <= i < |args[1]| ==> IsBit(args[1][i])) ==>
              if args[1] in files then
                && o.Converted? && o.mode == TextFile && o.outputPath == args[2]
                && o.totalBytesWritten == |o.bytes|
                && (args[1] != args[2] ==>
                      o.bytes == Pack(files[args[1]]) && o.paddingNeeded == Padding(|Bits(files[args[1]])|))
                && (args[1] == args[2] ==> o.bytes == [] && o.paddingNeeded == 0)
              else
                o == OpenFailed(args[1])
    ensures ExitStatus(o) == 0 <==>
              |args| >= 3 && ((|args[1]| > 0 && forall i :: 0 <= i < |args[1]| ==> IsBit(args[1][i])) || args[1] in files)
  {
    if |args| < 3 {
      return Usage;
    }
    var inputArg, outputPath := args[1], args[2];
    var literal := IsBitString(inputArg);
    if literal {
      LiteralSkipsNothing(inputArg);
      var bytes, total, padding := ConvertString(inputArg);
      o := Converted(Literal, outputPath, bytes, total, padding);
    } else if inputArg in files {
      // The input is opened before the output is created, and creating a
      // file truncates it: when both paths name the same file, the reader
      // finds it already empty.
      var contents := if inputArg == outputPath then [] else files[inputArg];
      var bytes, total, padding := ConvertText(contents);
      o := Converted(TextFile, outputPath, bytes, total, padding);
    } else {
      o := OpenFailed(inputArg);
    }
  }

  /** A text file gives the same bytes and padding as the literal string of
      its digits would, and that string is accepted as a literal whenever
      the file holds at least one digit. */
  lemma TextAgreesWithLiteral(text: seq<char>)
    ensures var digits := Meaningful(text);
              && Pack(digits) == Pack(text)
              && Padding(|digits|) == Padding(|Bits(text)|)
              && (|digits| > 0 ==> forall i :: 0 <= i < |digits| ==> IsBit(digits[i]))
  {
    BitsOfMeaningful(text);
    BitsMatchMeaningful(text);
  }
}
