/** The shared text-input hook: two state cells (`value`, `touched`) and the
    error display derived from them and from the validator. */
module CommonTextInputHook {
  import opened Utf16
  import opened Wrappers
  import opened TextValidation
  import opened InputSanitizer

  class TextInput {
    var value: Text
    var touched: bool

    constructor (initialValue: Text)
      ensures value == initialValue && !touched
    {
      value := initialValue;
      touched := false;
    }

    function TrimmedValue(): Text
      reads this
    {
      Trim(value)
    }

    function CharacterCount(): string
      reads this
    {
      CharacterCountDisplay(value)
    }

    function Validation(): ValidationResult
      reads this
    {
      ValidateText(value)
    }

    /** Submitting depends on the validator alone, not on `touched`. */
    function IsSubmittable(): (r: bool)
      reads this
      ensures r <==> PassesRawChecks(value) && MeetsMinLength(value) && !HasOnlyJamoeum(value)
                     && !HasRepetition(Trim(value))
    {
      CanSubmit(value)
    }

    /** An error is shown once the user has typed, the value is not empty and
        the validator rejects it. */
    function HasError(): (r: bool)
      reads this
      ensures r ==> touched && value != [] && !CanSubmit(value)
      ensures touched && value != [] && !CanSubmit(value) ==> r
    {
      touched && |value| > 0 && !ValidateText(value).IsValid()
    }

    /** The validator's message exactly when an error is shown. */
    function ErrorMessage(): (r: Option<string>)
      reads this
      ensures r.Some? <==> HasError()
      ensures r.Some? ==> r == Some(Message(ValidateText(value).reason))
    {
      if HasError() then ValidateText(value).ErrorMessage() else None
    }

    /** Removes line breaks and cuts to the limit. */
    method HandleChange(input: Text)
      modifies this
      ensures value == Sanitize(input)
      ensures !HasLineBreak(value) && |value| <= MaxLength
      ensures value == RemoveLineBreaks(input)[..|value|]
      ensures ValidateText(value).Invalid? ==> ValidateText(value).reason !in {LineBreak, TooLong}
      ensures touched
    {
      var newValue := RemoveLineBreaks(input);
      if |newValue| > MaxLength {
        newValue := newValue[..MaxLength];
      }
      value := newValue;
      if !touched {
        touched := true;
      }
      SanitizeShape(input);
      SanitizedRejection(input);
    }

    /** The raw setter the hook also hands out: no sanitising. */
    method SetValue(v: Text)
      modifies this`value
      ensures value == v
    {
      value := v;
    }

    method Reset()
      modifies this
      ensures value == [] && !touched
    {
      value := [];
      touched := false;
    }
  }
}
