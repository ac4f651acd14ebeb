/**
 The HTML report template: a class holding one template string, into which
 values are inserted at placeholders written as `[name]`.
 */
module ReportUtils {
  import opened Strings

  /** What `Insert` reports: success, or the ValueError the Python
      implementation raises. */
  datatype InsertOutcome = Inserted | ValueError(message: string)

  /** The message of the ValueError raised for an ambiguous placeholder. */
  const MultipleMatchesMessage: string :=
    "`replace_multiple` requires True as found \nmultiple placeholder matches in template."

  /** The text searched for: the placeholder name in square brackets. */
  function Token(placeholder: string): (tok: string)
    ensures |tok| == |placeholder| + 2
    ensures tok[0] == '[' && tok[|tok| - 1] == ']'
    ensures tok[1..|tok| - 1] == placeholder
  {
    "[" + placeholder + "]"
  }

  /** The guard of the error path: more than one occurrence and no
      permission to replace several. Counting the pieces of a split, as
      assess_gtfs does, gives the same test. */
  predicate RefusesInsert(template: string, placeholder: string, replaceMultiple: bool)
    ensures RefusesInsert(template, placeholder, replaceMultiple)
        <==> |Split(template, Token(placeholder))| - 1 > 1 && !replaceMultiple
  {
    CountIsSplitMinusOne(template, Token(placeholder));
    CountOcc(template, Token(placeholder)) > 1 && !replaceMultiple
  }

  class TemplateHTML {
    var template: string

    /** The template text is given directly; reading it from a file is left out. */
    constructor (text: string)
      ensures template == text
    {
      template := text;
    }

    /** Inserts `value` at every `[placeholder]` in the template. With more
        than one such placeholder and `replaceMultiple` false (its default),
        nothing changes and a ValueError is reported. */
    method Insert(placeholder: string, value: string, replaceMultiple: bool := false) returns (outcome: InsertOutcome)
      modifies this
      ensures outcome.ValueError? <==> RefusesInsert(old(template), placeholder, replaceMultiple)
      ensures outcome.ValueError? ==> outcome.message == MultipleMatchesMessage && template == old(template)
      ensures outcome.Inserted? ==> template == ReplaceAll(old(template), Token(placeholder), value)
      ensures outcome.Inserted? ==>
        |template| == |old(template)| + CountOcc(old(template), Token(placeholder)) * (|value| - |placeholder| - 2)
      ensures CountOcc(old(template), Token(placeholder)) == 0 ==> outcome.Inserted? && template == old(template)
      ensures CountOcc(old(template), Token(placeholder)) == 1 ==>
        && outcome.Inserted?
        && Find(old(template), Token(placeholder)).Some?
        && var i := Find(old(template), Token(placeholder)).value;
           template == old(template)[..i] + value + old(template)[i + |placeholder| + 2..]
    {
      var tok := Token(placeholder);
      var occurrences := |Split(template, tok)| - 1;
      CountIsSplitMinusOne(template, tok);
      if occurrences > 1 && !replaceMultiple {
        outcome := ValueError(MultipleMatchesMessage);
        return;
      }
      var before := template;
      ReplaceLength(before, tok, value);
      if occurrences == 0 {
        NoMatchUnchanged(before, tok, value);
      } else if occurrences == 1 {
        SingleMatchSplits(before, tok);
        var i := Find(before, tok).value;
        SingleMatch(before[..i], tok, before[i + |tok|..], value);
      }
      template := ReplaceAll(template, tok, value);
      outcome := Inserted;
    }

    /** The current template text. */
    function GetTemplate(): (text: string)
      reads this
      ensures text == template
    {
      template
    }
  }

  /** Text without an opening bracket that comes before a placeholder is kept
      as it is, even when it spells the placeholder's bare name, and the
      bracketed placeholder after it is the one replaced. */
  lemma {:induction false} UnbracketedTextKept(text: string, placeholder: string, rest: string, value: string)
    requires forall k :: 0 <= k < |text| ==> text[k] != '['
    ensures ReplaceAll(text + Token(placeholder) + rest, Token(placeholder), value)
         == text + value + ReplaceAll(rest, Token(placeholder), value)
  {
    var tok := Token(placeholder);
    var s := text + tok + rest;
    forall j: nat | j < |text|
      ensures !OccursAt(s, tok, j)
    {
      assert s[j] == text[j];
    }
    ReplaceAtFirstMatch(text, tok, rest, value);
  }

  /** A template without any opening bracket holds no placeholder, so an
      insertion leaves it unchanged, even where it spells the bare name. */
  lemma NoBracketUnchanged(text: string, placeholder: string, value: string)
    requires forall k :: 0 <= k < |text| ==> text[k] != '['
    ensures ReplaceAll(text, Token(placeholder), value) == text
  {
    var tok := Token(placeholder);
    forall j: nat | j < |text|
      ensures !OccursAt(text, tok, j)
    {
      assert text[j] != '[';
    }
  }
}
