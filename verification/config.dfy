/**
 * Command-line options and formatting configuration of mdfmt: the list
 * delimiter and its rendering, the default configuration, the conversion
 * from command-line options, and the validation of those options.
 */
module Configuration {
  import opened Wrappers

  /** Rust's `usize` on a 64-bit target. */
  newtype usize = x: int | 0 <= x < 0x1_0000_0000_0000_0000

  /** A filesystem path, compared as text. */
  type Path = string

  /** The command-line options: `-i/--in-place`, the input file and `-c/--config`. */
  datatype Opt = Opt(inPlace: bool, inputFile: Path, configFile: Option<Path>)

  /** A validation error: the offending path and the name of the parameter that held it. */
  datatype OptError = InvalidFile(filename: Path, parameter: string)

  /** The symbols that can introduce a markdown list item. */
  datatype ListDelimiter = Asterisk | Dash

  /** The formatting configuration. */
  datatype Config = Config(lineWidth: usize, indentWidth: usize, listDelim: ListDelimiter)

  /** The documented invariant of a configuration: the indent is narrower than a line. */
  predicate WellFormed(c: Config) {
    c.indentWidth < c.lineWidth
  }

  /** The text a list delimiter is displayed as: one character, `-` or `*`. */
  function Display(d: ListDelimiter): (r: string)
    ensures |r| == 1
    ensures r == "-" <==> d == Dash
    ensures r == "*" <==> d == Asterisk
  {
    match d
    case Dash => "-"
    case Asterisk => "*"
  }

  /** Two delimiters are displayed alike only when they are the same delimiter. */
  lemma DisplayInjective(a: ListDelimiter, b: ListDelimiter)
    ensures Display(a) == Display(b) <==> a == b
  {
  }

  /** The default configuration: 80 columns, an indent of 4, `*` for lists. */
  function Default(): (c: Config)
    ensures c.lineWidth == 80 && c.indentWidth == 4 && c.listDelim == Asterisk
    ensures WellFormed(c)
  {
    Config(80, 4, Asterisk)
  }

  /**
   * The configuration built from the command-line options. Reading a
   * configuration file is not implemented and aborts the program, so callers
   * must not pass one.
   */
  function FromOpt(opt: Opt): (c: Config)
    requires opt.configFile.None?
    ensures c == Default()
    ensures WellFormed(c)
  {
    Default()
  }

  /**
   * Validation of the command-line options against the filesystem predicate
   * `isFile` ("is an existing regular file"). The input file is checked
   * first; the configuration file, when given, second.
   */
  function Valid(opt: Opt, isFile: Path -> bool): (r: Result<(), OptError>)
    ensures !isFile(opt.inputFile) ==>
              r == Err(InvalidFile(opt.inputFile, "input_file"))
    ensures isFile(opt.inputFile) && opt.configFile.Some? && !isFile(opt.configFile.value) ==>
              r == Err(InvalidFile(opt.configFile.value, "config_file"))
    ensures r.Ok? <==> isFile(opt.inputFile) && (opt.configFile.None? || isFile(opt.configFile.value))
  {
    if !isFile(opt.inputFile) then
      Err(InvalidFile(opt.inputFile, "input_file"))
    else if opt.configFile.Some? && !isFile(opt.configFile.value) then
      Err(InvalidFile(opt.configFile.value, "config_file"))
    else
      Ok(())
  }
}
