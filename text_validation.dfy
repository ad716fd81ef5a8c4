/** The diary-line validator: an ordered chain of rejection rules over a
    UTF-16 string, the first rule that matches deciding the result. */
module TextValidation {
  import opened Utf16
  import opened Wrappers
  import Decimal

  const MaxLength := 50
  const MinLength := 3
  const MaxRepeatedChars := 10

  // ----- Character classes -----

  predicate IsLineBreak(c: CodeUnit) {
    c == 0x0A || c == 0x0D
  }

  /** The code units `String.prototype.trim` strips and the regular-expression
      class `\s` matches: WhiteSpace and LineTerminator of ECMA-262
      (sections 12.2 and 12.3), the space separators of Unicode written out. */
  predicate IsWhitespace(c: CodeUnit) {
    || c == 0x09 || c == 0x0B || c == 0x0C || c == 0x20 || c == 0xA0 || c == 0xFEFF
    || c == 0x1680 || (0x2000 <= c <= 0x200A) || c == 0x202F || c == 0x205F || c == 0x3000
    || c == 0x0A || c == 0x0D || c == 0x2028 || c == 0x2029
  }

  /** Compatibility jamo ㄱ (U+3131) to ㅎ (U+314E) and ㅏ (U+314F) to ㅣ (U+3163). */
  predicate IsJamo(c: CodeUnit) {
    0x3131 <= c <= 0x3163
  }

  /** Precomposed syllables 가 (U+AC00) to 힣 (U+D7A3). */
  predicate IsSyllable(c: CodeUnit) {
    0xAC00 <= c <= 0xD7A3
  }

  predicate AllWhitespace(t: Text) {
    forall i :: 0 <= i < |t| ==> IsWhitespace(t[i])
  }

  // ----- Single-rule tests -----

  /** `/[가-힣]/.test(text)`, scanning left to right. */
  function HasCompleteHangul(t: Text): (r: bool)
    ensures r <==> exists i :: 0 <= i < |t| && IsSyllable(t[i])
  {
    if t == [] then false
    else if IsSyllable(t[0]) then true
    else
      var rest := HasCompleteHangul(t[1..]);
      assert forall i :: 1 <= i < |t| ==> t[i] == t[1..][i - 1];
      rest
  }

  /** `/[ㄱ-ㅎㅏ-ㅣ]/.test(text)`. */
  function HasJamo(t: Text): (r: bool)
    ensures r <==> exists i :: 0 <= i < |t| && IsJamo(t[i])
  {
    if t == [] then false
    else if IsJamo(t[0]) then true
    else
      var rest := HasJamo(t[1..]);
      assert forall i :: 1 <= i < |t| ==> t[i] == t[1..][i - 1];
      rest
  }

  /** Some jamo and no precomposed syllable. */
  function HasOnlyJamoeum(t: Text): (r: bool)
    ensures r <==> (exists i :: 0 <= i < |t| && IsJamo(t[i]))
                   && (forall i :: 0 <= i < |t| ==> !IsSyllable(t[i]))
  {
    HasJamo(t) && !HasCompleteHangul(t)
  }

  /** `/[\n\r]/.test(text)`. */
  function HasLineBreak(t: Text): (r: bool)
    ensures r <==> exists i :: 0 <= i < |t| && IsLineBreak(t[i])
  {
    if t == [] then false
    else if IsLineBreak(t[0]) then true
    else
      var rest := HasLineBreak(t[1..]);
      assert forall i :: 1 <= i < |t| ==> t[i] == t[1..][i - 1];
      rest
  }

  /** `text.replace(/\s/g, '')`. */
  function RemoveWhitespace(t: Text): (r: Text)
    ensures |r| <= |t|
    ensures forall i :: 0 <= i < |r| ==> !IsWhitespace(r[i])
  {
    if t == [] then []
    else if IsWhitespace(t[0]) then
      assert t == [t[0]] + t[1..];
      RemoveWhitespace(t[1..])
    else
      assert t == [t[0]] + t[1..];
      [t[0]] + RemoveWhitespace(t[1..])
  }

  /** At least three code units that are not whitespace. */
  predicate MeetsMinLength(t: Text) {
    |RemoveWhitespace(t)| >= MinLength
  }

  predicate MeetsMaxLength(t: Text) {
    |t| <= MaxLength
  }

  /** The `MaxRepeatedChars` units from position `p` on are all equal. */
  predicate RunAt(t: Text, p: int) {
    0 <= p && p + MaxRepeatedChars <= |t| && forall k :: p <= k < p + MaxRepeatedChars ==> t[k] == t[p]
  }

  /** The text holds a run of `MaxRepeatedChars` equal code units. */
  predicate HasRepetition(t: Text) {
    exists p :: 0 <= p < |t| && RunAt(t, p)
  }

  /** The nested scan of the source: from every position, count how far the
      same unit goes on, and stop as soon as the count reaches the limit. */
  method HasExcessiveRepetition(t: Text) returns (r: bool)
    ensures r <==> HasRepetition(t)
  {
    var i := 0;
    while i < |t|
      invariant 0 <= i <= |t|
      invariant forall p :: 0 <= p < i ==> !RunAt(t, p)
    {
      var count := 1;
      var j := i + 1;
      while j < |t| && t[i] == t[j]
        invariant i + 1 <= j <= |t|
        invariant count == j - i < MaxRepeatedChars
        invariant forall k :: i <= k < j ==> t[k] == t[i]
      {
        count := count + 1;
        if count >= MaxRepeatedChars {
          assert RunAt(t, i);
          return true;
        }
        j := j + 1;
      }
      assert j == |t| || t[j] != t[i];
      assert !RunAt(t, i);
      i := i + 1;
    }
    return false;
  }

  // ----- Trimming -----

  /** The first index at or after `i` that holds no whitespace (or the end). */
  function SkipLeading(t: Text, i: nat): (r: nat)
    requires i <= |t|
    ensures i <= r <= |t|
    ensures forall k :: i <= k < r ==> IsWhitespace(t[k])
    ensures r == |t| || !IsWhitespace(t[r])
    decreases |t| - i
  {
    if i < |t| && IsWhitespace(t[i]) then SkipLeading(t, i + 1) else i
  }

  /** Going down from `j` but not below `lo`, one past the last index that
      holds no whitespace (or `lo`). */
  function SkipTrailing(t: Text, lo: nat, j: nat): (r: nat)
    requires lo <= j <= |t|
    ensures lo <= r <= j
    ensures forall k :: r <= k < j ==> IsWhitespace(t[k])
    ensures r == lo || !IsWhitespace(t[r - 1])
  {
    if j > lo && IsWhitespace(t[j - 1]) then SkipTrailing(t, lo, j - 1) else j
  }

  /** `text.trim()`: the text between the leading and the trailing whitespace. */
  function Trim(t: Text): (r: Text)
    ensures |r| <= |t|
    ensures r == [] <==> AllWhitespace(t)
    ensures r != [] ==> !IsWhitespace(r[0]) && !IsWhitespace(r[|r| - 1])
  {
    var a := SkipLeading(t, 0);
    var b := SkipTrailing(t, a, |t|);
    assert a == b ==> a == |t|;
    t[a..b]
  }

  // ----- The validator -----

  /** The seven rejection reasons, in the order the rules are tried. */
  datatype Rejection = Empty | LineBreak | TooLong | WhitespaceOnly | TooShort | JamoOnly | Repetition

  /** `{ isValid, errorMessage? }`: valid, or invalid with the rule that failed. */
  datatype ValidationResult = Valid | Invalid(reason: Rejection) {
    predicate IsValid() {
      Valid?
    }

    function ErrorMessage(): Option<string> {
      if Valid? then None else Some(Message(reason))
    }
  }

  /** The user-facing text of each rejection. */
  function Message(reason: Rejection): string {
    match reason
    case Empty => "내용을 입력해주세요."
    case LineBreak => "줄바꿈은 입력할 수 없어요."
    case TooLong => "최대 " + Decimal.Show(MaxLength) + "자까지 입력할 수 있어요."
    case WhitespaceOnly => "공백만 입력할 수 없어요."
    case TooShort => "공백을 제외하고 최소 " + Decimal.Show(MinLength) + "자 이상 입력해주세요."
    case JamoOnly => "자음이나 모음만 입력할 수 없어요."
    case Repetition => "동일한 문자를 10자 이상 반복할 수 없어요."
  }

  /** The rules in order: emptiness, line breaks and length on the raw text;
      the content rules on the trimmed text. */
  function ValidateText(t: Text): (r: ValidationResult)
    ensures r == Invalid(Empty) <==> t == []
    ensures r.Invalid? && r.reason in {LineBreak, TooLong} ==> t != []
    ensures r.IsValid() ==> 0 < |t| <= MaxLength && !HasLineBreak(t)
  {
    if t == [] then Invalid(Empty)
    else if HasLineBreak(t) then Invalid(LineBreak)
    else if !MeetsMaxLength(t) then Invalid(TooLong)
    else
      var trimmed := Trim(t);
      if trimmed == [] then Invalid(WhitespaceOnly)
      else if !MeetsMinLength(trimmed) then Invalid(TooShort)
      else if HasOnlyJamoeum(trimmed) then Invalid(JamoOnly)
      else if HasRepetition(trimmed) then Invalid(Repetition)
      else Valid
  }

  /** `validateText(text).isValid`. */
  function CanSubmit(t: Text): (r: bool)
    ensures r <==> PassesRawChecks(t) && MeetsMinLength(t) && !HasOnlyJamoeum(t) && !HasRepetition(Trim(t))
  {
    ValidateTextPrecedence(t);
    ValidateText(t).IsValid()
  }

  /** `getCharacterCountDisplay`: the raw length, then " / 50". */
  function CharacterCountDisplay(t: Text): (r: string)
    ensures |r| > 5 && r[|r| - 5..] == " / 50"
    ensures Decimal.ParseInteger(r[..|r| - 5]) == Some(|t|)
    ensures r == Decimal.ShowNat(|t|) + " / 50"
  {
    var count := Decimal.Show(|t|);
    Decimal.ParseShow(|t|);
    assert Decimal.Show(MaxLength) == "50" by {
      assert Decimal.ShowNat(5) == "5";
    }
    var r := count + " / " + Decimal.Show(MaxLength);
    assert r == count + " / 50";
    assert r[..|count|] == count;
    r
  }

  // ----- What the rule chain means for the raw text -----

  /** Non-empty, free of line breaks and within the length limit. */
  predicate PassesRawChecks(t: Text) {
    t != [] && !HasLineBreak(t) && |t| <= MaxLength
  }

  lemma {:induction false} RemoveWhitespaceAppend(a: Text, b: Text)
    ensures RemoveWhitespace(a + b) == RemoveWhitespace(a) + RemoveWhitespace(b)
  {
    if a == [] {
      assert a + b == b;
    } else {
      var ab := a + b;
      assert ab[0] == a[0] && ab[1..] == a[1..] + b;
      RemoveWhitespaceAppend(a[1..], b);
      if IsWhitespace(a[0]) {
        assert RemoveWhitespace(ab) == RemoveWhitespace(ab[1..]);
      } else {
        assert RemoveWhitespace(ab) == [a[0]] + RemoveWhitespace(ab[1..]);
        assert RemoveWhitespace(a) == [a[0]] + RemoveWhitespace(a[1..]);
      }
    }
  }

  lemma {:induction false} RemoveWhitespaceOfBlank(t: Text)
    requires AllWhitespace(t)
    ensures RemoveWhitespace(t) == []
  {
    if t != [] {
      RemoveWhitespaceOfBlank(t[1..]);
    }
  }

  lemma {:induction false} RemoveWhitespaceOfSolid(t: Text)
    requires forall i :: 0 <= i < |t| ==> !IsWhitespace(t[i])
    ensures RemoveWhitespace(t) == t
  {
    if t != [] {
      RemoveWhitespaceOfSolid(t[1..]);
    }
  }

  /** Trimming cuts whitespace off both ends and nothing else. */
  lemma TrimBounds(t: Text) returns (a: nat, b: nat)
    ensures a <= b <= |t| && Trim(t) == t[a..b]
    ensures forall i :: 0 <= i < |t| && !(a <= i < b) ==> IsWhitespace(t[i])
    ensures AllWhitespace(t[..a]) && AllWhitespace(t[b..])
  {
    a := SkipLeading(t, 0);
    b := SkipTrailing(t, a, |t|);
    assert forall k :: 0 <= k < a ==> t[..a][k] == t[k];
    assert forall k :: 0 <= k < |t| - b ==> t[b..][k] == t[b + k];
  }

  /** A class of units that holds no whitespace is met in the trimmed text
      exactly when it is met in the raw text. */
  lemma TrimKeepsClass(t: Text, p: CodeUnit -> bool)
    requires forall c :: p(c) ==> !IsWhitespace(c)
    ensures (exists i :: 0 <= i < |t| && p(t[i])) <==> (exists i :: 0 <= i < |Trim(t)| && p(Trim(t)[i]))
  {
    var a, b := TrimBounds(t);
    var r := Trim(t);
    if i :| 0 <= i < |t| && p(t[i]) {
      assert a <= i < b;
      assert r[i - a] == t[i];
    }
    if i :| 0 <= i < |r| && p(r[i]) {
      assert t[i + a] == r[i];
    }
  }

  /** The length floor gives the same answer on the trimmed and on the raw
      text. */
  lemma TrimKeepsMinLength(t: Text)
    ensures MeetsMinLength(Trim(t)) <==> MeetsMinLength(t)
  {
    TrimKeepsNonWhitespace(t);
  }

  lemma TrimKeepsNonWhitespace(t: Text)
    ensures RemoveWhitespace(Trim(t)) == RemoveWhitespace(t)
  {
    var a, b := TrimBounds(t);
    assert t == t[..a] + t[a..b] + t[b..];
    RemoveWhitespaceAround(t[..a], t[a..b], t[b..]);
  }

  /** Blank text around `mid` adds nothing once whitespace is removed. */
  lemma RemoveWhitespaceAround(pre: Text, mid: Text, suf: Text)
    requires AllWhitespace(pre) && AllWhitespace(suf)
    ensures RemoveWhitespace(pre + mid + suf) == RemoveWhitespace(mid)
  {
    RemoveWhitespaceOfBlank(pre);
    RemoveWhitespaceOfBlank(suf);
    var rm := RemoveWhitespace(mid);
    RemoveWhitespaceAppend(pre, mid);
    assert RemoveWhitespace(pre + mid) == rm;
    RemoveWhitespaceAppend(pre + mid, suf);
    assert rm + [] == rm;
  }

  /** Trimming keeps every code unit that is not whitespace, so the content
      rules see the same non-whitespace units, jamo and syllables as in the raw
      text. */
  lemma TrimKeepsContent(t: Text)
    ensures RemoveWhitespace(Trim(t)) == RemoveWhitespace(t)
    ensures HasJamo(Trim(t)) == HasJamo(t)
    ensures HasCompleteHangul(Trim(t)) == HasCompleteHangul(t)
  {
    TrimKeepsNonWhitespace(t);
    HangulIsNotWhitespace();
    TrimKeepsClass(t, IsJamo);
    TrimKeepsClass(t, IsSyllable);
  }

  lemma HangulIsNotWhitespace()
    ensures forall c :: IsJamo(c) ==> !IsWhitespace(c)
    ensures forall c :: IsSyllable(c) ==> !IsWhitespace(c)
  {
  }

  /** Each reason, stated on the raw text: the first rule that matches wins,
      so a line break beats the length limit, the length limit beats every
      content rule, and too few non-whitespace units beat the jamo rule. The
      repetition rule alone looks at the trimmed text: a run of blanks at either
      end is cut off before it is counted. */
  lemma ValidateTextPrecedence(t: Text)
    ensures ValidateText(t) == Invalid(LineBreak) <==> t != [] && HasLineBreak(t)
    ensures ValidateText(t) == Invalid(TooLong) <==> t != [] && !HasLineBreak(t) && |t| > MaxLength
    ensures ValidateText(t) == Invalid(WhitespaceOnly) <==> PassesRawChecks(t) && AllWhitespace(t)
    ensures ValidateText(t) == Invalid(TooShort) <==>
      PassesRawChecks(t) && !AllWhitespace(t) && !MeetsMinLength(t)
    ensures ValidateText(t) == Invalid(JamoOnly) <==>
      PassesRawChecks(t) && MeetsMinLength(t) && HasOnlyJamoeum(t)
    ensures ValidateText(t) == Invalid(Repetition) <==>
      PassesRawChecks(t) && MeetsMinLength(t) && !HasOnlyJamoeum(t) && HasRepetition(Trim(t))
    ensures ValidateText(t) == Valid <==>
      PassesRawChecks(t) && MeetsMinLength(t) && !HasOnlyJamoeum(t) && !HasRepetition(Trim(t))
  {
    TrimKeepsContent(t);
  }

  /** The cases the rule chain is documented with, as code units. */
  lemma ExampleJamoPairIsTooShort()
    ensures ValidateText([0x3131, 0x3134]) == Invalid(TooShort)  // "ㄱㄴ"
  {
    var t: Text := [0x3131, 0x3134];
    assert PassesRawChecks(t) && !AllWhitespace(t) by {
      assert !IsLineBreak(t[0]) && !IsLineBreak(t[1]) && !IsWhitespace(t[0]);
    }
    assert !MeetsMinLength(t);
    ValidateTextPrecedence(t);
  }

  lemma ExampleJamoOnly()
    ensures ValidateText([0x3131, 0x3134, 0x3137]) == Invalid(JamoOnly)  // "ㄱㄴㄷ"
  {
    var t: Text := [0x3131, 0x3134, 0x3137];
    assert PassesRawChecks(t) by {
      assert !IsLineBreak(t[0]) && !IsLineBreak(t[1]) && !IsLineBreak(t[2]);
    }
    assert MeetsMinLength(t) by {
      assert RemoveWhitespace(t) == t;
    }
    assert HasOnlyJamoeum(t) by {
      assert IsJamo(t[0]) && !IsSyllable(t[0]) && !IsSyllable(t[1]) && !IsSyllable(t[2]);
    }
    ValidateTextPrecedence(t);
  }

  lemma ExampleSyllables()
    ensures ValidateText([0xAC00, 0xB098, 0xB2E4]) == Valid  // "가나다"
  {
    var t: Text := [0xAC00, 0xB098, 0xB2E4];
    assert PassesRawChecks(t) by {
      assert !IsLineBreak(t[0]) && !IsLineBreak(t[1]) && !IsLineBreak(t[2]);
    }
    assert MeetsMinLength(t) by {
      assert RemoveWhitespace(t) == t;
    }
    assert !HasOnlyJamoeum(t) by {
      assert IsSyllable(t[0]);
    }
    ValidateTextPrecedence(t);
  }

  lemma ExampleBlank()
    ensures ValidateText([0x20, 0x20, 0x20]) == Invalid(WhitespaceOnly)  // "   "
  {
    var t: Text := [0x20, 0x20, 0x20];
    assert PassesRawChecks(t) by {
      assert !IsLineBreak(t[0]) && !IsLineBreak(t[1]) && !IsLineBreak(t[2]);
    }
    assert AllWhitespace(t);
    ValidateTextPrecedence(t);
  }

  /** "a" repeated `k` times followed by "이모션" passes every rule but the
      repetition rule, and trimming leaves it as it is. */
  lemma RepeatedExampleShape(k: nat, t: Text)
    requires 1 <= k <= 10 && t == seq(k, _ => 0x61) + [0xC774, 0xBAA8, 0xC158]
    ensures PassesRawChecks(t) && MeetsMinLength(t) && !HasOnlyJamoeum(t) && Trim(t) == t
  {
    assert forall i :: 0 <= i < |t| ==> t[i] == 0x61 || t[i] >= 0xBAA8;
    assert !HasLineBreak(t);
    RemoveWhitespaceOfSolid(t);
    assert IsSyllable(t[k]);
    assert SkipLeading(t, 0) == 0;
    assert SkipTrailing(t, 0, |t|) == |t|;
    assert t[0..|t|] == t;
  }

  /** "aaaaaaaaaa이모션" is rejected for the run of ten; with nine it is accepted. */
  lemma ExampleTenRepeats()
    ensures ValidateText(seq(10, _ => 0x61) + [0xC774, 0xBAA8, 0xC158]) == Invalid(Repetition)
  {
    var t: Text := seq(10, _ => 0x61) + [0xC774, 0xBAA8, 0xC158];
    RepeatedExampleShape(10, t);
    assert RunAt(t, 0);
    ValidateTextPrecedence(t);
  }

  lemma ExampleNineRepeats()
    ensures ValidateText(seq(9, _ => 0x61) + [0xC774, 0xBAA8, 0xC158]) == Valid
  {
    var t: Text := seq(9, _ => 0x61) + [0xC774, 0xBAA8, 0xC158];
    RepeatedExampleShape(9, t);
    assert !HasRepetition(t) by {
      forall p | 0 <= p < |t| ensures !RunAt(t, p) {
        if p <= 2 {
          assert t[9] != t[p];
        }
      }
    }
    ValidateTextPrecedence(t);
  }
}
