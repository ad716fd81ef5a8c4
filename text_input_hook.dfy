/** The text-input hook with the over-limit notice: three state cells
    (`value`, `touched`, `attemptedExceedMax`) and the error display derived
    from them and from the validator. */
module TextInputHook {
  import opened Utf16
  import opened Wrappers
  import opened TextValidation
  import opened InputSanitizer

  /** The notice shown when a valid value sits at the limit after the user
      tried to type past it. */
  const OverLimitMessage: string := "50자 이내로 입력해주세요."

  lemma OverLimitIsNoValidatorMessage(reason: Rejection)
    ensures Message(reason) != OverLimitMessage
  {
    assert Message(reason)[0] != OverLimitMessage[0];
  }

  class TextInput {
    var value: Text
    var touched: bool
    var attemptedExceedMax: bool

    constructor (initialValue: Text)
      ensures value == initialValue && !touched && !attemptedExceedMax
    {
      value := initialValue;
      touched := false;
      attemptedExceedMax := false;
    }

    function TrimmedValue(): Text
      reads this
    {
      Trim(value)
    }

    function CharacterCount(): string
      reads this
    {
      CharacterCountDisplay(value)
    }

    function Validation(): ValidationResult
      reads this
    {
      ValidateText(value)
    }

    /** Submitting depends on the validator alone, not on `touched`. */
    function IsSubmittable(): (r: bool)
      reads this
      ensures r <==> PassesRawChecks(value) && MeetsMinLength(value) && !HasOnlyJamoeum(value)
                     && !HasRepetition(Trim(value))
    {
      CanSubmit(value)
    }

    /** Nothing is shown before the first change or for an empty value; a
        rejected value shows the validator's message; the over-limit notice
        is shown only for a valid value of exactly `MaxLength` units after an
        attempt to go past it. */
    function ErrorMessage(): (r: Option<string>)
      reads this
      ensures r.Some? ==> touched && value != []
      ensures r == Some(OverLimitMessage) <==>
        touched && ValidateText(value).IsValid() && |value| == MaxLength && attemptedExceedMax
      ensures r.Some? && r != Some(OverLimitMessage) ==> r == ValidateText(value).ErrorMessage()
      ensures touched && value != [] && !ValidateText(value).IsValid() ==> r.Some?
    {
      if touched && |value| > 0 then
        var validation := ValidateText(value);
        if !validation.IsValid() then
          OverLimitIsNoValidatorMessage(validation.reason);
          validation.ErrorMessage()
        else if |value| == MaxLength && attemptedExceedMax then Some(OverLimitMessage)
        else None
      else None
    }

    function HasError(): (r: bool)
      reads this
      ensures r <==> ErrorMessage().Some?
      ensures !touched || value == [] ==> !r
    {
      if touched && |value| > 0 then
        !ValidateText(value).IsValid() || (|value| == MaxLength && attemptedExceedMax)
      else false
    }

    /** Removes line breaks, cuts to the limit and records whether the user
        tried to go past it: set when the input without line breaks was too
        long, cleared when the result is shorter than the limit, kept when it
        is exactly at the limit. */
    method HandleChange(input: Text)
      modifies this
      ensures value == Sanitize(input)
      ensures !HasLineBreak(value) && |value| <= MaxLength
      ensures ValidateText(value).Invalid? ==> ValidateText(value).reason !in {LineBreak, TooLong}
      ensures touched
      ensures attemptedExceedMax ==
        if |RemoveLineBreaks(input)| > MaxLength then true
        else if |value| < MaxLength then false
        else old(attemptedExceedMax)
    {
      var newValue := RemoveLineBreaks(input);
      var exceededMax := |newValue| > MaxLength;
      if exceededMax {
        newValue := newValue[..MaxLength];
        attemptedExceedMax := true;
      } else if |newValue| < MaxLength {
        attemptedExceedMax := false;
      }
      value := newValue;
      if !touched {
        touched := true;
      }
      SanitizeShape(input);
      SanitizedRejection(input);
    }

    /** The raw setter the hook also hands out: no sanitising. */
    method SetValue(v: Text)
      modifies this`value
      ensures value == v
    {
      value := v;
    }

    method Reset()
      modifies this
      ensures value == [] && !touched && !attemptedExceedMax
    {
      value := [];
      touched := false;
      attemptedExceedMax := false;
    }
  }
}
