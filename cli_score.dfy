/**
 * The CLI verifier of the evaluation engine (`validate_cli_command`): a
 * purely syntactic check that the response splits into shell words.
 */
module CliScore {
  import opened Wrappers
  import opened JsonValue
  import opened ShellWords

  /** `validate_cli_command(command)`: {"cli_syntax_pass": True} when the
      command splits, else {"cli_syntax_pass": False, "error": <message>}.
      Every tokenizer error is caught, so the check is total. */
  function ValidateCliCommand(command: string): (r: Fields)
    ensures "cli_syntax_pass" in r && r["cli_syntax_pass"] == JBool(Split(command).Success?)
    ensures Split(command).Success? ==> r.Keys == {"cli_syntax_pass"}
    ensures Split(command).Failure? ==>
      r.Keys == {"cli_syntax_pass", "error"} &&
      r["cli_syntax_pass"] == JBool(false) && r["error"] == JStr(Split(command).error)
  {
    match Split(command)
    case Success(_) => map["cli_syntax_pass" := JBool(true)]
    case Failure(msg) => map["cli_syntax_pass" := JBool(false), "error" := JStr(msg)]
  }

  /** A command without quotes or backslashes passes, whatever it says. */
  lemma PlainCommandPasses(command: string)
    requires forall i :: 0 <= i < |command| ==> !IsSpecial(command[i])
    ensures ValidateCliCommand(command) == map["cli_syntax_pass" := JBool(true)]
  {
    PlainSplit(command);
  }

  /** A command with an unclosed quote fails with the lexer's message. */
  lemma UnclosedQuoteFails(a: string, q: char, b: string)
    requires forall i :: 0 <= i < |a| ==> !IsSpecial(a[i])
    requires q == '\'' || q == '"'
    requires q !in b && (q == '"' ==> '\\' !in b)
    ensures ValidateCliCommand(a + [q] + b) ==
      map["cli_syntax_pass" := JBool(false), "error" := JStr("No closing quotation")]
  {
    PlainIsOutside(a);
    UnclosedQuote(a, q, b);
  }

  /** A command ending in an unescaped backslash fails. */
  lemma TrailingBackslashFails(a: string)
    requires forall i :: 0 <= i < |a| ==> !IsSpecial(a[i])
    ensures ValidateCliCommand(a + ['\\']) ==
      map["cli_syntax_pass" := JBool(false), "error" := JStr("No escaped character")]
  {
    PlainIsOutside(a);
    TrailingBackslash(a);
  }

  const NotAStringError := "the command is not a string"

  /** `validate_cli_command(response)` on whatever the entry holds: a string is
      split as above; for any other value `shlex` fails (it reads the value as
      a stream), the failure is caught, and the check fails. */
  function ValidateCliValue(response: Json): (r: Fields)
    ensures "cli_syntax_pass" in r
    ensures r["cli_syntax_pass"] == JBool(response.JStr? && Split(response.s).Success?)
    ensures !response.JStr? ==> r == map["cli_syntax_pass" := JBool(false), "error" := JStr(NotAStringError)]
  {
    match response
    case JStr(command) => ValidateCliCommand(command)
    case _ => map["cli_syntax_pass" := JBool(false), "error" := JStr(NotAStringError)]
  }
}
