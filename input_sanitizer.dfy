/** What both text-input hooks do to every change before storing it: line
    breaks are removed and the rest is cut to the length limit. */
module InputSanitizer {
  import opened Utf16
  import opened TextValidation

  /** `value.replace(/[\n\r]/g, '')`. */
  function RemoveLineBreaks(t: Text): (r: Text)
    ensures |r| <= |t|
    ensures !HasLineBreak(r)
  {
    if t == [] then []
    else
      var rest := RemoveLineBreaks(t[1..]);
      if IsLineBreak(t[0]) then rest
      else
        var r := [t[0]] + rest;
        assert forall i :: 1 <= i < |r| ==> r[i] == rest[i - 1];
        r
  }

  /** Line breaks removed, then `slice(0, MaxLength)` when longer. */
  function Sanitize(t: Text): Text {
    var v := RemoveLineBreaks(t);
    if |v| > MaxLength then v[..MaxLength] else v
  }

  /** Removing line breaks changes the text exactly when it holds one. */
  lemma {:induction false} RemoveLineBreaksUnchanged(t: Text)
    ensures RemoveLineBreaks(t) == t <==> !HasLineBreak(t)
  {
    if t != [] {
      RemoveLineBreaksUnchanged(t[1..]);
      assert t == [t[0]] + t[1..];
      if !HasLineBreak(t) {
        assert !IsLineBreak(t[0]);
        assert !HasLineBreak(t[1..]) by {
          assert forall i :: 0 <= i < |t[1..]| ==> t[1..][i] == t[i + 1];
        }
      }
    }
  }

  /** Removing line breaks works unit by unit: a line break goes, any other
      unit stays, and the units that stay keep their order. */
  lemma {:induction false} RemoveLineBreaksAppend(a: Text, b: Text)
    ensures RemoveLineBreaks(a + b) == RemoveLineBreaks(a) + RemoveLineBreaks(b)
  {
    if a == [] {
      assert a + b == b;
    } else {
      assert (a + b)[0] == a[0] && (a + b)[1..] == a[1..] + b;
      RemoveLineBreaksAppend(a[1..], b);
    }
  }

  lemma RemoveLineBreaksUnit(c: CodeUnit)
    ensures RemoveLineBreaks([c]) == if IsLineBreak(c) then [] else [c]
  {
    assert [c][1..] == [];
  }

  /** "a\nb" is stored as "ab". */
  lemma RemoveLineBreaksExample()
    ensures RemoveLineBreaks([0x61, 0x0A, 0x62]) == [0x61, 0x62]
  {
    var t: Text := [0x61, 0x0A, 0x62];
    RemoveLineBreaksAppend([0x61], [0x0A, 0x62]);
    RemoveLineBreaksAppend([0x0A], [0x62]);
    RemoveLineBreaksUnit(0x61);
    RemoveLineBreaksUnit(0x0A);
    RemoveLineBreaksUnit(0x62);
    assert t == [0x61] + ([0x0A] + [0x62]);
  }

  lemma NoLineBreakInPrefix(t: Text, n: nat)
    requires n <= |t| && !HasLineBreak(t)
    ensures !HasLineBreak(t[..n])
  {
    assert forall i :: 0 <= i < n ==> t[..n][i] == t[i];
  }

  /** The stored value never holds a line break, never exceeds the limit,
      and is a prefix of the input with its line breaks removed: the whole of
      it when that is within the limit, its first `MaxLength` units otherwise. */
  lemma SanitizeShape(t: Text)
    ensures !HasLineBreak(Sanitize(t)) && |Sanitize(t)| <= MaxLength
    ensures var v := RemoveLineBreaks(t);
      Sanitize(t) == v[..|Sanitize(t)|]
      && |Sanitize(t)| == (if |v| > MaxLength then MaxLength else |v|)
  {
    NoLineBreakInPrefix(RemoveLineBreaks(t), if |RemoveLineBreaks(t)| > MaxLength then MaxLength else |RemoveLineBreaks(t)|);
  }

  /** Input without line breaks and within the limit is stored exactly. */
  lemma SanitizeKeepsCleanInput(t: Text)
    requires !HasLineBreak(t) && |t| <= MaxLength
    ensures Sanitize(t) == t
  {
    RemoveLineBreaksUnchanged(t);
  }

  /** Feeding the stored value back in leaves it as it is. */
  lemma SanitizeIdempotent(t: Text)
    ensures Sanitize(Sanitize(t)) == Sanitize(t)
  {
    SanitizeShape(t);
    SanitizeKeepsCleanInput(Sanitize(t));
  }

  /** A stored value can be rejected for any reason except a line break or
      its length. */
  lemma SanitizedRejection(t: Text)
    ensures var r := ValidateText(Sanitize(t));
      r.Invalid? ==> r.reason != LineBreak && r.reason != TooLong
  {
    SanitizeShape(t);
    ValidateTextPrecedence(Sanitize(t));
  }
}
