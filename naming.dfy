/** Naming conventions used by `enum_field`: the name of the generated
    predicate for each permitted value, and the name of the constant that
    exposes the permitted values.  All case mapping is ASCII-only. */
module Naming {

  /** Ruby's `\s`: space, tab, line feed, vertical tab, form feed, carriage return. */
  predicate IsWhitespace(c: char) {
    c == ' ' || c == '\t' || c == '\n' || c == '\U{B}' || c == '\U{C}' || c == '\r'
  }

  /** A character matched by the character class `[-\s]`. */
  predicate IsSeparator(c: char) {
    c == '-' || IsWhitespace(c)
  }

  predicate IsUpper(c: char) {
    'A' <= c <= 'Z'
  }

  predicate IsLower(c: char) {
    'a' <= c <= 'z'
  }

  predicate IsDigit(c: char) {
    '0' <= c <= '9'
  }

  /** `downcase` on one character: the result is never an upper-case letter,
      and an upper-case letter becomes a lower-case one. */
  function LowerChar(c: char): (r: char)
    ensures !IsUpper(r)
    ensures IsUpper(c) ==> IsLower(r)
  {
    if IsUpper(c) then (c as int + 32) as char else c
  }

  /** `upcase` on one character: the result is never a lower-case letter, and
      a lower-case letter becomes an upper-case one. */
  function UpperChar(c: char): (r: char)
    ensures !IsLower(r)
    ensures IsLower(c) ==> IsUpper(r)
  {
    if IsLower(c) then (c as int - 32) as char else c
  }

  /** The two case mappings undo each other on letters and leave every other
      character alone. */
  lemma CaseRoundTrip(c: char)
    ensures IsUpper(c) ==> UpperChar(LowerChar(c)) == c
    ensures IsLower(c) ==> LowerChar(UpperChar(c)) == c
    ensures !IsUpper(c) && !IsLower(c) ==> LowerChar(c) == c && UpperChar(c) == c
  {
  }

  /** `String#downcase`, restricted to ASCII letters. */
  function Downcase(s: string): (r: string)
    ensures |r| == |s|
  {
    if s == [] then [] else [LowerChar(s[0])] + Downcase(s[1..])
  }

  /** `String#upcase`, restricted to ASCII letters. */
  function Upcase(s: string): (r: string)
    ensures |r| == |s|
  {
    if s == [] then [] else [UpperChar(s[0])] + Upcase(s[1..])
  }

  /** `gsub(/[-\s]/, '_')`: every single separator character becomes one
      underscore; runs are not collapsed and nothing is stripped. */
  function ReplaceSeparators(s: string): (r: string)
    ensures |r| == |s|
  {
    if s == [] then []
    else [if IsSeparator(s[0]) then '_' else s[0]] + ReplaceSeparators(s[1..])
  }

  /** The method name derived from a permitted value, without the trailing `?`:
      `value.downcase.gsub(/[-\s]/, '_')`. */
  function PredicateName(value: string): (r: string)
    ensures |r| == |value|
  {
    ReplaceSeparators(Downcase(value))
  }

  lemma {:induction false} DowncaseAt(s: string)
    ensures forall i :: 0 <= i < |s| ==> Downcase(s)[i] == LowerChar(s[i])
  {
    if s != [] {
      DowncaseAt(s[1..]);
    }
  }

  lemma {:induction false} UpcaseAt(s: string)
    ensures forall i :: 0 <= i < |s| ==> Upcase(s)[i] == UpperChar(s[i])
  {
    if s != [] {
      UpcaseAt(s[1..]);
    }
  }

  lemma {:induction false} ReplaceSeparatorsAt(s: string)
    ensures forall i :: 0 <= i < |s| ==>
      ReplaceSeparators(s)[i] == if IsSeparator(s[i]) then '_' else s[i]
  {
    if s != [] {
      ReplaceSeparatorsAt(s[1..]);
    }
  }

  /** The predicate name agrees with the value character by character: a
      separator becomes `_`, anything else is lower-cased. */
  lemma PredicateNameAt(value: string)
    ensures forall i :: 0 <= i < |value| ==>
      PredicateName(value)[i] == if IsSeparator(value[i]) then '_' else LowerChar(value[i])
  {
    DowncaseAt(value);
    ReplaceSeparatorsAt(Downcase(value));
  }

  /** Only the case of a letter matters to `upcase`: lower-casing first
      changes nothing. */
  lemma {:induction false} UpcaseAfterDowncase(s: string)
    ensures Upcase(Downcase(s)) == Upcase(s)
  {
    if s != [] {
      UpcaseAfterDowncase(s[1..]);
      CaseRoundTrip(s[0]);
      assert Downcase(s)[1..] == Downcase(s[1..]);
    }
  }

  /** Only the case of a letter matters to `downcase`: upper-casing first
      changes nothing. */
  lemma {:induction false} DowncaseAfterUpcase(s: string)
    ensures Downcase(Upcase(s)) == Downcase(s)
  {
    if s != [] {
      DowncaseAfterUpcase(s[1..]);
      CaseRoundTrip(s[0]);
      assert Upcase(s)[1..] == Upcase(s[1..]);
    }
  }

  /** The full name of the generated query method: `"#{method_name}?"`. */
  function QueryName(value: string): (r: string)
    ensures |r| == |value| + 1 && r[|value|] == '?'
  {
    PredicateName(value) + "?"
  }

  /** Two values get the same query method exactly when their names before
      the `?` agree. */
  lemma QueryNameDetermined(v: string, w: string)
    ensures QueryName(v) == QueryName(w) <==> PredicateName(v) == PredicateName(w)
  {
    if QueryName(v) == QueryName(w) {
      assert PredicateName(v) == QueryName(v)[..|v|];
      assert PredicateName(w) == QueryName(w)[..|w|];
    }
  }

  /** The constant name `field.to_s.pluralize.upcase`, given the plural form. */
  function ConstantName(plural: string): (r: string)
    ensures |r| == |plural|
  {
    Upcase(plural)
  }

  /** The constant name has the plural's length and no lower-case ASCII letter. */
  lemma ConstantNameIsUpper(plural: string)
    ensures |ConstantName(plural)| == |plural|
    ensures forall i :: 0 <= i < |plural| ==> !IsLower(ConstantName(plural)[i])
  {
    UpcaseAt(plural);
  }

  /** A character Ruby accepts inside an identifier (non-ASCII characters are
      identifier characters in Ruby). */
  predicate IsIdentifierChar(c: char) {
    IsUpper(c) || IsLower(c) || IsDigit(c) || c == '_' || c as int >= 128
  }

  /** Names that `const_defined?` and `const_set` accept: an upper-case ASCII
      letter followed by identifier characters. */
  predicate IsConstantName(s: string) {
    |s| > 0 && IsUpper(s[0]) && forall i :: 1 <= i < |s| ==> IsIdentifierChar(s[i])
  }

  predicate IsLetter(c: char) {
    IsUpper(c) || IsLower(c)
  }

  /** The constant name of a plural is accepted exactly when the plural starts
      with an ASCII letter and continues with identifier characters. */
  lemma ConstantNameAccepted(plural: string)
    ensures IsConstantName(ConstantName(plural)) <==>
      |plural| > 0 && IsLetter(plural[0]) && forall i :: 1 <= i < |plural| ==> IsIdentifierChar(plural[i])
  {
    UpcaseAt(plural);
  }

  /** A name that contains no separator and no upper-case ASCII letter. */
  predicate IsNormalName(s: string) {
    forall i :: 0 <= i < |s| ==> !IsSeparator(s[i]) && !IsUpper(s[i])
  }

  /** Lower-casing and separator replacement commute: the order in which the
      source applies them does not matter. */
  lemma {:induction false} DowncaseReplaceCommute(s: string)
    ensures ReplaceSeparators(Downcase(s)) == Downcase(ReplaceSeparators(s))
  {
    if s != [] {
      DowncaseReplaceCommute(s[1..]);
      assert Downcase(s) == [LowerChar(s[0])] + Downcase(s[1..]);
      assert ReplaceSeparators(s) == [if IsSeparator(s[0]) then '_' else s[0]] + ReplaceSeparators(s[1..]);
      assert Downcase(s)[1..] == Downcase(s[1..]);
      assert ReplaceSeparators(s)[1..] == ReplaceSeparators(s[1..]);
    }
  }

  /** Every character of a value that is neither a separator nor an upper-case
      letter is kept as it is; upper-case letters become their lower-case form;
      separators become `_`. */
  lemma PredicateNameCharacters(value: string, i: int)
    requires 0 <= i < |value|
    ensures IsSeparator(value[i]) ==> PredicateName(value)[i] == '_'
    ensures IsUpper(value[i]) ==> PredicateName(value)[i] == (value[i] as int + 32) as char
    ensures !IsSeparator(value[i]) && !IsUpper(value[i]) ==> PredicateName(value)[i] == value[i]
  {
    PredicateNameAt(value);
  }

  /** Generated names never contain `-`, whitespace or an upper-case letter. */
  lemma PredicateNameIsNormal(value: string)
    ensures IsNormalName(PredicateName(value))
  {
    PredicateNameAt(value);
  }

  /** The fixed points of the normalisation are exactly the normal names. */
  lemma NormalNameFixedPoint(s: string)
    ensures IsNormalName(s) <==> PredicateName(s) == s
  {
    PredicateNameAt(s);
    if IsNormalName(s) {
      assert forall i :: 0 <= i < |s| ==> PredicateName(s)[i] == s[i];
    }
    if PredicateName(s) == s {
      assert forall i :: 0 <= i < |s| ==> !IsSeparator(s[i]) && !IsUpper(s[i]) by {
        forall i | 0 <= i < |s| ensures !IsSeparator(s[i]) && !IsUpper(s[i]) {
          assert s[i] == PredicateName(s)[i];
        }
      }
    }
  }

  /** Normalising a generated name again changes nothing. */
  lemma PredicateNameIdempotent(value: string)
    ensures PredicateName(PredicateName(value)) == PredicateName(value)
  {
    PredicateNameIsNormal(value);
    NormalNameFixedPoint(PredicateName(value));
  }

  /** A value and its lower-cased form always yield the same name, so two
      permitted values that differ only in case collide. */
  lemma DowncaseCollides(value: string)
    ensures QueryName(Downcase(value)) == QueryName(value)
  {
    DowncaseAt(value);
    PredicateNameAt(value);
    PredicateNameAt(Downcase(value));
    assert PredicateName(Downcase(value)) == PredicateName(value);
  }

  lemma GendersConstantExample()
    ensures ConstantName("genders") == "GENDERS"
    ensures IsConstantName("GENDERS")
  {
  }

  /** A plural containing a space gives a name `const_defined?` rejects. */
  lemma SpacedConstantRejected()
    ensures !IsConstantName(ConstantName("my fields"))
  {
    assert ConstantName("my fields") == "MY FIELDS";
    assert !IsIdentifierChar("MY FIELDS"[2]);
  }
}
