/** `DatabaseValidator` (src/services/database/DatabaseValidator.ts): guards that throw `ValidationError`. */
module Validator {
  import opened Wrappers
  import opened Errors
  import opened Text
  import opened Priorities
  import opened Entities

  /** A JavaScript number as far as the satisfaction guard can tell it apart. */
  datatype Number = Integral(n: int) | Fractional | NonFinite

  /** `validateString`: rejects a trimmed value that is too short, then too long, then one holding a control character. */
  function ValidateString(value: string, fieldName: string, minLength: int, maxLength: int): (r: Result<string, DbError>)
    ensures r.Success? <==>
      minLength <= Utf16Length(Trim(value)) <= maxLength && NoControlChars(Trim(value))
    ensures r.Success? ==> r.value == Trim(value)
    ensures r.Failure? ==> r.error.Validation?
  {
    var trimmed := Trim(value);
    if Utf16Length(trimmed) < minLength then
      Failure(Validation(fieldName + " must be at least " + IntToString(minLength) + " characters"))
    else if Utf16Length(trimmed) > maxLength then
      Failure(Validation(fieldName + " must not exceed " + IntToString(maxLength) + " characters"))
    else if !NoControlChars(trimmed) then
      Failure(Validation(fieldName + " contains invalid characters"))
    else
      Success(trimmed)
  }

  /** An accepted string is a fixed point: validating it again with the same bounds returns it unchanged. */
  lemma ValidatedStringIsFixedPoint(value: string, fieldName: string, minLength: int, maxLength: int)
    requires ValidateString(value, fieldName, minLength, maxLength).Success?
    ensures ValidateString(Trim(value), fieldName, minLength, maxLength) == Success(Trim(value))
  {
    TrimIdempotent(value);
    SameTrimSameVerdict(Trim(value), value, fieldName, minLength, maxLength);
  }

  /** Whitespace around the text is stripped, not rejected: only the trimmed text is checked. */
  lemma {:induction false} SurroundingWhitespaceIgnored(core: string, before: string, after: string, fieldName: string, minLength: int, maxLength: int)
    requires Blank(before) && Blank(after)
    requires core == [] || (!IsTrimmable(core[0]) && !IsTrimmable(core[|core| - 1]))
    ensures ValidateString(before + core + after, fieldName, minLength, maxLength) ==
            ValidateString(core, fieldName, minLength, maxLength)
  {
    TrimStripsBlankEnds(before, core, after);
    TrimStripsBlankEnds([], core, []);
    assert [] + core + [] == core;
    SameTrimSameVerdict(before + core + after, core, fieldName, minLength, maxLength);
  }

  /** The verdict depends on the trimmed text alone. */
  lemma SameTrimSameVerdict(a: string, b: string, fieldName: string, minLength: int, maxLength: int)
    requires Trim(a) == Trim(b)
    ensures ValidateString(a, fieldName, minLength, maxLength) == ValidateString(b, fieldName, minLength, maxLength)
  {
  }

  /** `validatePriority`: accepts exactly the labels of `Priority` and returns the same label. */
  function ValidatePriority(value: string): (r: Result<Priority, DbError>)
    ensures r.Success? <==> IsPriority(value)
    ensures r.Success? ==> Label(r.value) == value
    ensures r.Failure? ==> r.error.Validation? && |r.error.msg| >= 16 && r.error.msg[..16] == "Invalid priority"
  {
    match Parse(value)
    case Some(p) => Success(p)
    case None => Failure(Validation("Invalid priority: " + value + ". Must be one of: " + JoinLabels()))
  }

  /** `priorities.join(", ")`. */
  function JoinLabels(): string {
    Labels[0] + ", " + Labels[1] + ", " + Labels[2] + ", " + Labels[3] + ", " + Labels[4]
  }

  /** `validateSatisfaction`: a finite integer in 1..10, checked in that order. */
  function ValidateSatisfaction(value: Number): (r: Result<(), DbError>)
    ensures r.Success? <==> value.Integral? && 1 <= value.n <= 10
    ensures r.Failure? ==> r.error.Validation?
  {
    match value
    case NonFinite => Failure(Validation("Satisfaction must be a finite number"))
    case Fractional => Failure(Validation("Satisfaction must be an integer"))
    case Integral(n) =>
      if n < 1 || n > 10 then Failure(Validation("Satisfaction must be between 1 and 10"))
      else Success(())
  }

  /** `validateDate`: invalid, then (when the future is not allowed) later than `now`, then the year bounds. */
  function ValidateDate(date: Date, fieldName: string, allowFuture: bool, now: int): (r: Result<(), DbError>)
    ensures r.Success? <==>
      date.Date? && (allowFuture || date.time <= now) && 1900 <= date.year <= 2100
    ensures r.Failure? ==> r.error.Validation?
  {
    if date.InvalidDate? then Failure(Validation(fieldName + " is not a valid date"))
    else if !allowFuture && date.time > now then Failure(Validation(fieldName + " cannot be in the future"))
    else if date.year < 1900 then Failure(Validation(fieldName + " year must be 1900 or later"))
    else if date.year > 2100 then Failure(Validation(fieldName + " year must be 2100 or earlier"))
    else Success(())
  }

  /** `validateArray`: the length within the inclusive bounds. */
  function ValidateArray<T>(value: seq<T>, fieldName: string, minLength: int, maxLength: int): (r: Result<(), DbError>)
    ensures r.Success? <==> minLength <= |value| <= maxLength
    ensures r.Failure? ==> r.error.Validation?
  {
    if |value| < minLength then
      Failure(Validation(fieldName + " must have at least " + IntToString(minLength) + " items"))
    else if |value| > maxLength then
      Failure(Validation(fieldName + " must not exceed " + IntToString(maxLength) + " items"))
    else Success(())
  }

  /** A failed length check names the bound it failed: different bounds give different errors. */
  lemma ArrayErrorNamesBound<T>(value: seq<T>, other: seq<T>, fieldName: string, min1: int, min2: int, max1: int, max2: int)
    ensures |value| < min1 && |other| < min2 && min1 != min2 ==>
      ValidateArray(value, fieldName, min1, max1) != ValidateArray(other, fieldName, min2, max2)
    ensures min1 <= |value| && min2 <= |other| && |value| > max1 && |other| > max2 && max1 != max2 ==>
      ValidateArray(value, fieldName, min1, max1) != ValidateArray(other, fieldName, min2, max2)
  {
    if |value| < min1 && |other| < min2 && min1 != min2 && ValidateArray(value, fieldName, min1, max1) == ValidateArray(other, fieldName, min2, max2) {
      SpliceCancels(fieldName + " must have at least ", IntToString(min1), IntToString(min2), " items");
      IntToStringInjective(min1, min2);
    }
    if min1 <= |value| && min2 <= |other| && |value| > max1 && |other| > max2 && max1 != max2
      && ValidateArray(value, fieldName, min1, max1) == ValidateArray(other, fieldName, min2, max2)
    {
      SpliceCancels(fieldName + " must not exceed ", IntToString(max1), IntToString(max2), " items");
      IntToStringInjective(max1, max2);
    }
  }

  predicate Distinct<T(==)>(s: seq<T>) {
    forall i, j :: 0 <= i < j < |s| ==> s[i] != s[j]
  }

  function Elements<T>(s: seq<T>): set<T> {
    set x | x in s
  }

  lemma {:induction false} ElementsBound<T>(s: seq<T>)
    ensures |Elements(s)| <= |s|
  {
    if s != [] {
      ElementsBound(s[1..]);
      assert Elements(s) == {s[0]} + Elements(s[1..]);
    }
  }

  /** The source's duplicate test: a `Set` of the elements is as large as the list exactly when no element repeats. */
  lemma {:induction false} SetSizeDetectsDuplicates<T>(s: seq<T>)
    ensures |Elements(s)| == |s| <==> Distinct(s)
  {
    if s != [] {
      var rest := s[1..];
      SetSizeDetectsDuplicates(rest);
      ElementsBound(rest);
      if s[0] in rest {
        assert Elements(s) == Elements(rest);
        var k :| 0 <= k < |rest| && rest[k] == s[0];
        assert s[0] == s[k + 1];
      } else {
        assert Elements(s) == {s[0]} + Elements(rest);
        assert Distinct(s) <==> Distinct(rest) by {
          if Distinct(rest) {
            forall i, j | 0 <= i < j < |s| ensures s[i] != s[j] {
              if i > 0 { assert s[i] == rest[i - 1] && s[j] == rest[j - 1]; }
              else { assert s[j] == rest[j - 1]; }
            }
          }
          if Distinct(s) {
            forall i, j | 0 <= i < j < |rest| ensures rest[i] != rest[j] {
              assert rest[i] == s[i + 1] && rest[j] == s[j + 1];
            }
          }
        }
      }
    }
  }

  /** Index of the first empty string, scanning from `from`. */
  function FirstEmptyFrom(values: seq<string>, from: nat): (r: Option<nat>)
    requires from <= |values|
    ensures r.Some? ==>
      && from <= r.value < |values|
      && values[r.value] == []
      && forall k :: from <= k < r.value ==> values[k] != []
    ensures r.None? ==> forall k :: from <= k < |values| ==> values[k] != []
    decreases |values| - from
  {
    if from == |values| then None
    else if values[from] == [] then Some(from)
    else FirstEmptyFrom(values, from + 1)
  }

  /** `values.map(v => v.trim())`. */
  function TrimAll(values: seq<string>): (r: seq<string>)
    ensures |r| == |values|
    ensures forall i :: 0 <= i < |values| ==> r[i] == Trim(values[i])
  {
    seq(|values|, i requires 0 <= i < |values| => Trim(values[i]))
  }

  /**
   * `validateStringArray`: the length bounds, then the first element blank after trimming,
   * then a repeat among the trimmed elements; on success the trimmed elements in order.
   */
  function ValidateStringArray(values: seq<string>, fieldName: string, minLength: int, maxLength: int): (r: Result<seq<string>, DbError>)
    ensures r.Success? <==>
      && minLength <= |values| <= maxLength
      && (forall i :: 0 <= i < |values| ==> Trim(values[i]) != [])
      && Distinct(TrimAll(values))
    ensures r.Success? ==>
      && |r.value| == |values|
      && (forall i :: 0 <= i < |values| ==> r.value[i] == Trim(values[i]) && r.value[i] != [])
      && Distinct(r.value)
    ensures r.Failure? ==> r.error.Validation?
  {
    match ValidateArray(values, fieldName, minLength, maxLength)
    case Failure(e) => Failure(e)
    case Success(_) =>
      var trimmed := TrimAll(values);
      match FirstEmptyFrom(trimmed, 0)
      case Some(i) => Failure(Validation(fieldName + "[" + IntToString(i) + "] must be a non-empty string"))
      case None =>
        SetSizeDetectsDuplicates(trimmed);
        if |Elements(trimmed)| != |trimmed| then Failure(Validation(fieldName + " contains duplicate values"))
        else Success(trimmed)
  }

  /** The first blank element is reported by its index, whatever follows it. */
  lemma BlankElementReported(values: seq<string>, fieldName: string, minLength: int, maxLength: int, i: nat)
    requires minLength <= |values| <= maxLength
    requires i < |values| && Blank(values[i])
    requires forall k :: 0 <= k < i ==> !Blank(values[k])
    ensures ValidateStringArray(values, fieldName, minLength, maxLength) ==
            Failure(Validation(fieldName + "[" + IntToString(i) + "] must be a non-empty string"))
  {
    forall k | 0 <= k <= i ensures Trim(values[k]) == [] <==> Blank(values[k]) {
      TrimEmptyIffBlank(values[k]);
    }
    var r := FirstEmptyFrom(TrimAll(values), 0);
    assert r.Some? && r.value == i;
  }

  /** A repeat after trimming is reported as a duplicate, wherever it occurs. */
  lemma {:induction false} RepeatReportedAsDuplicate(values: seq<string>, fieldName: string, minLength: int, maxLength: int, i: nat, j: nat)
    requires minLength <= |values| <= maxLength
    requires forall k :: 0 <= k < |values| ==> Trim(values[k]) != []
    requires i < j < |values| && Trim(values[i]) == Trim(values[j])
    ensures ValidateStringArray(values, fieldName, minLength, maxLength) ==
            Failure(Validation(fieldName + " contains duplicate values"))
  {
    var trimmed := TrimAll(values);
    assert forall k :: 0 <= k < |trimmed| ==> trimmed[k] != [];
    assert FirstEmptyFrom(trimmed, 0).None?;
    assert trimmed[i] == trimmed[j];
    SetSizeDetectsDuplicates(trimmed);
    assert |Elements(trimmed)| != |trimmed|;
  }

  /** An empty name fails the length check first, with the minimum in the message. */
  lemma EmptyNameTooShort()
    ensures ValidateString("", "name", 1, 255) == Failure(Validation("name" + " must be at least " + IntToString(1) + " characters"))
  {
    assert Trim("") == "";
  }

  /** 256 characters pass the minimum and fail the 255 maximum. */
  lemma LongNameTooLong()
    ensures ValidateString(seq(256, _ => 'a'), "name", 1, 255) ==
            Failure(Validation("name" + " must not exceed " + IntToString(255) + " characters"))
  {
    var long := seq(256, _ => 'a');
    assert !IsTrimmable(long[0]) && !IsTrimmable(long[255]);
    assert Trim(long) == long by {
      assert TrimStart(long) == long;
      assert TrimEnd(long) == long;
    }
  }

  /** An interior NUL is rejected as an invalid character. */
  lemma InteriorNulRejected()
    ensures ValidateString("John" + [0 as char] + "Doe", "name", 1, 255) ==
            Failure(Validation("name" + " contains invalid characters"))
  {
    var nul := "John" + [0 as char] + "Doe";
    assert Trim(nul) == nul by {
      assert TrimStart(nul) == nul;
      assert TrimEnd(nul) == nul;
    }
    assert Utf16Length(nul) <= 16;
    assert !NoControlChars(nul) by { assert IsControl(nul[4]); }
  }
}
