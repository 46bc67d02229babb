/**
 * `FormatValidationErrors`: one human-readable message per failed field
 * constraint, in the order the validator reported them, joined with "; ".
 */
module Validation {
  import Strings

  /** One failed constraint: the struct field, the validation tag and the tag's parameter. */
  datatype FieldError = FieldError(field: string, tag: string, param: string)

  /** The message for one failed constraint, chosen by its tag. */
  function Message(e: FieldError): string
  {
    match e.tag
    case "required" => e.field + " is required"
    case "uuid" => e.field + " must be a valid UUID"
    case "min" => e.field + " must be at least " + e.param + " characters long"
    case "max" => e.field + " must be at most " + e.param + " characters long"
    case _ => e.field + " is invalid"
  }

  function Messages(errs: seq<FieldError>): (ms: seq<string>)
    ensures |ms| == |errs|
  {
    if |errs| == 0 then [] else [Message(errs[0])] + Messages(errs[1..])
  }

  /** The text of the error `FormatValidationErrors` returns: the first error's message, then
      "; " and the rest's text when there are more. */
  function FormatValidationErrors(errs: seq<FieldError>): (text: string)
    ensures |errs| == 0 ==> text == ""
    ensures |errs| == 1 ==> text == Message(errs[0])
    ensures |errs| > 1 ==> text == Message(errs[0]) + "; " + FormatValidationErrors(errs[1..])
  {
    Strings.Join(Messages(errs), "; ")
  }

  /** The i-th message is the message of the i-th error: one per error, in input order. */
  lemma {:induction false} MessagesInOrder(errs: seq<FieldError>, i: nat)
    requires i < |errs|
    ensures Messages(errs)[i] == Message(errs[i])
  {
    if i > 0 {
      MessagesInOrder(errs[1..], i - 1);
    }
  }

  /** What each tag produces; any tag other than the four known ones reads "is invalid". */
  lemma MessageByTag(e: FieldError)
    ensures e.tag == "required" ==> Message(e) == e.field + " is required"
    ensures e.tag == "uuid" ==> Message(e) == e.field + " must be a valid UUID"
    ensures e.tag == "min" ==> Message(e) == e.field + " must be at least " + e.param + " characters long"
    ensures e.tag == "max" ==> Message(e) == e.field + " must be at most " + e.param + " characters long"
    ensures e.tag !in {"required", "uuid", "min", "max"} ==> Message(e) == e.field + " is invalid"
  {
  }

  /** An empty list formats as the empty string; a single error as its message alone. */
  lemma FormatSmall(e: FieldError)
    ensures FormatValidationErrors([]) == ""
    ensures FormatValidationErrors([e]) == Message(e)
  {
    assert Messages([e]) == [Message(e)];
  }

  /** Splits a formatted text back into its messages: cut at ';', drop one leading blank. */
  function Recover(text: string): seq<string>
  {
    var pieces := Strings.Split(text, ';');
    [pieces[0]] + seq(|pieces| - 1, i requires 0 <= i < |pieces| - 1 =>
      var p := pieces[i + 1]; if |p| > 0 && p[0] == ' ' then p[1..] else p)
  }

  /** The pieces between the ';' characters of a "; "-joined text: every message but the
      first keeps the blank of its separator in front. */
  function SemicolonSeparated(ms: seq<string>): seq<string>
  {
    if |ms| == 0 then [] else [ms[0]] + seq(|ms| - 1, i requires 0 <= i < |ms| - 1 => " " + ms[i + 1])
  }

  lemma {:induction false} JoinSemicolon(ms: seq<string>)
    requires |ms| >= 1
    ensures Strings.Join(ms, "; ") == Strings.Join(SemicolonSeparated(ms), [';'])
  {
    if |ms| > 1 {
      var tail := SemicolonSeparated(ms[1..]);
      var whole := SemicolonSeparated(ms);
      JoinSemicolon(ms[1..]);
      var shifted := [" " + ms[1]] + tail[1..];
      assert whole == [ms[0]] + shifted;
      assert Strings.Join(whole, [';']) == ms[0] + [';'] + Strings.Join(shifted, [';']);
      Strings.JoinPrefixFront(" ", tail, [';']);
      assert Strings.Join(shifted, [';']) == " " + Strings.Join(tail, [';']);
    }
  }

  /** When no field name or parameter contains ';', the formatted text determines the messages:
      splitting it again gives back exactly one message per error, in order. */
  lemma {:induction false} RecoverFormat(errs: seq<FieldError>)
    requires |errs| >= 1
    requires forall i :: 0 <= i < |errs| ==> ';' !in errs[i].field && ';' !in errs[i].param
    ensures Recover(FormatValidationErrors(errs)) == Messages(errs)
  {
    var ms := Messages(errs);
    var ss := SemicolonSeparated(ms);
    forall i | 0 <= i < |ms|
      ensures ';' !in ms[i]
    {
      MessagesInOrder(errs, i);
      MessageHasNoSemicolon(errs[i]);
    }
    forall i | 0 <= i < |ss|
      ensures ';' !in ss[i]
    {
      if i > 0 {
        assert ss[i] == " " + ms[i];
      }
    }
    JoinSemicolon(ms);
    Strings.SplitJoin(ss, ';');
    var r := Recover(FormatValidationErrors(errs));
    assert |r| == |ms|;
    forall i | 0 <= i < |ms|
      ensures r[i] == ms[i]
    {
      if i > 0 {
        assert ss[i] == " " + ms[i];
        assert ss[i][1..] == ms[i];
      }
    }
  }

  lemma MessageHasNoSemicolon(e: FieldError)
    requires ';' !in e.field && ';' !in e.param
    ensures ';' !in Message(e)
  {
  }
}
