/** Two places where the code does not do what its own text says it
    does, each modelled as written beside the corrected definition the rest
    of the model uses. */
module Findings {
  import opened Wrappers
  import opened GenerateArgs
  import opened GeneratePlan

  /** The duplicate-name report as written: the literal lacks the `f`
      prefix, so the placeholder is printed as is. */
  function DuplicateMessageAsWritten(name: string): string {
    "ERROR:  variable \"{name}\" specified multiple times"
  }

  /** As written, the report is the same whatever the variable, so it does
      not say which name was repeated; the corrected report does. */
  lemma DuplicateMessageAsWrittenHidesName()
    ensures DuplicateMessageAsWritten("nk") == DuplicateMessageAsWritten("T")
    ensures DuplicateMessage("nk") != DuplicateMessage("T")
  {
    var a := DuplicateMessage("nk");
    var b := DuplicateMessage("T");
    assert |a| != |b|;
  }

  /** The user-file branch of `load_config_file` as written: the loop runs
      over the two parser modules but calls the JSON loader both times. */
  function LoadConfigAsWritten(source: ConfigSource): (r: Option<Config>)
    ensures source.UserFile? ==> r == source.asJson
  {
    match source
    case UserFile(j, _) => FirstLoaded([j, j])
    case DefaultFiles(j, y) => FirstLoaded([j, y])
  }

  /** A configuration file given on the command line that only parses as
      YAML is rejected as written, and loaded by the corrected loader. */
  lemma YamlUserFileRejectedAsWritten(c: Config)
    ensures LoadConfigAsWritten(UserFile(None, Some(c))).None?
    ensures LoadConfig(UserFile(None, Some(c))) == Some(c)
  {
  }
}
