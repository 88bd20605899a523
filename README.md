# enum_field, modelled in Dafny

`enum_field field, possible_values, options` is a class macro for
ActiveRecord models (lib/enum_field.rb:29-47). One call does four things to
the class it is called in:

1. It defines the constant `field.to_s.pluralize.upcase`, holding the
   permitted values. It does this only when no constant of that name is
   defined yet.
2. It defines one query method per permitted value. The method is named
   after the value: lower-cased, each `-` or whitespace character replaced by
   `_`, then a `?` appended. It answers whether the field currently holds
   exactly that value.
3. It builds the options hash `{:in => possible_values, :message => message}`.
   It adds `:allow_blank => true` and `:allow_nil => true` only when the
   caller asked for them.
4. It registers one `validates_inclusion_of` rule for the field with that
   hash.

The model has two modules:

- `Naming` (naming.dfy) holds the pure string functions: ASCII `downcase` and
  `upcase`, the `gsub(/[-\s]/, '_')` replacement, the predicate name and the
  constant name, and when Ruby accepts a name as a constant name.
- `Registration` (registration.dfy) holds the rest. `Host` is a class with
  three fields that the macro updates in place:
  - `constants`: constant name to its values;
  - `predicates`: method name to the captured field and value;
  - `validations`: the rules registered so far.

  `Host.EnumField` is the macro itself, with the same loop as the source.
  The pure function `InstallAll` states what that loop does to the method
  table. The lemmas about `InstallAll` give the properties: the last write
  wins, untouched names stay as they were, exact-equality semantics, and at
  most one true predicate.

Inputs the model takes as parameters:

- ActiveSupport's inflector (`pluralize`) is the parameter
  `pluralize: string -> string`.
- An instance's attribute reader (`self.send(field)`) is the parameter
  `read: string -> Option<string>`. `None` stands for nil, or for any value
  that is not a string.

Where the code and the repository's tests disagree, the model follows the
code. The tests at test/enum_field_test.rb:87-105 expect three things: that
`'choice%one'` gives `choice_one?`, that `'other.'` gives `other?`, and that
a non-ASCII character becomes `_`. The code at lib/enum_field.rb:36 touches
only `-` and whitespace, one character at a time.
`Naming.PredicateNameCharacters` states that every other character is kept.
So `'choice%one'` gives `choice%one?` and `'other.'` gives `other.?`.

The code at lib/enum_field.rb:35-46 does not reject an empty list of values.
An empty list gives an empty constant, no methods, and a rule whose `:in` is
empty.

## Model

| member | source | states |
|---|---|---|
| Naming.IsWhitespace | lib/enum_field.rb:36 | the characters of Ruby's `\s`: space, tab, line feed, vertical tab, form feed, carriage return |
| Naming.IsSeparator | lib/enum_field.rb:36 | the characters of the class `[-\s]`: `-` or whitespace |
| Naming.LowerChar | lib/enum_field.rb:36 | `downcase` of one character is never upper-case; an upper-case letter becomes a lower-case one |
| Naming.UpperChar | lib/enum_field.rb:31 | `upcase` of one character is never lower-case; a lower-case letter becomes an upper-case one |
| Naming.CaseRoundTrip | lib/enum_field.rb:31-36 | `upcase` undoes `downcase` on an upper-case letter and `downcase` undoes `upcase` on a lower-case one; a character that is not a letter is left alone by both |
| Naming.Downcase | lib/enum_field.rb:36 | `downcase` keeps the length of the string |
| Naming.Upcase | lib/enum_field.rb:31 | `upcase` keeps the length of the string |
| Naming.ReplaceSeparators | lib/enum_field.rb:36 | `gsub(/[-\s]/, '_')` keeps the length: nothing is collapsed or stripped |
| Naming.PredicateName | lib/enum_field.rb:36 | the method name has exactly as many characters as the value |
| Naming.DowncaseAt | lib/enum_field.rb:36 | position by position, `downcase` lower-cases each character and changes nothing else |
| Naming.UpcaseAt | lib/enum_field.rb:31 | position by position, `upcase` upper-cases each character and changes nothing else |
| Naming.ReplaceSeparatorsAt | lib/enum_field.rb:36 | position by position, each `-` or whitespace character becomes `_` and every other character is kept |
| Naming.PredicateNameAt | lib/enum_field.rb:36 | character i of the name is `_` when character i of the value is a separator; otherwise it is the lower-cased character i |
| Naming.PredicateNameCharacters | lib/enum_field.rb:36 | separators become `_`; upper-case letters become lower-case; every other character (so `%` and `.` too) is kept |
| Naming.UpcaseAfterDowncase | lib/enum_field.rb:31-36 | `s.downcase.upcase == s.upcase` for every string |
| Naming.DowncaseAfterUpcase | lib/enum_field.rb:31-36 | `s.upcase.downcase == s.downcase` for every string |
| Naming.QueryName | lib/enum_field.rb:37 | the method name is one character longer than the value and ends in `?` |
| Naming.QueryNameDetermined | lib/enum_field.rb:36-37 | two values get the same method name if and only if their names before the `?` agree |
| Naming.DowncaseReplaceCommute | lib/enum_field.rb:36 | lower-casing and then replacing separators gives the same result as replacing and then lower-casing |
| Naming.PredicateNameIsNormal | lib/enum_field.rb:36 | a generated name contains no `-`, no whitespace and no upper-case ASCII letter |
| Naming.NormalNameFixedPoint | lib/enum_field.rb:36 | normalising leaves a string unchanged if and only if it has no separator and no upper-case letter |
| Naming.PredicateNameIdempotent | lib/enum_field.rb:36 | normalising a generated name again changes nothing |
| Naming.DowncaseCollides | lib/enum_field.rb:36-37 | a value and its lower-cased form get the same method name, so values that differ only in case collide |
| Naming.ConstantName | lib/enum_field.rb:31 | the constant name is exactly as long as the plural |
| Naming.IsConstantName | lib/enum_field.rb:33 | a name `const_defined?` accepts: an upper-case ASCII letter, then identifier characters |
| Naming.ConstantNameAccepted | lib/enum_field.rb:31-33 | the constant name of a plural is accepted if and only if the plural starts with an ASCII letter and continues with identifier characters |
| Naming.ConstantNameIsUpper | lib/enum_field.rb:31 | the constant name is as long as the plural and contains no lower-case ASCII letter |
| Naming.GendersConstantExample | test/enum_field_test.rb:23-25 | the plural `genders` gives the constant `GENDERS`, and Ruby accepts that as a constant name |
| Naming.SpacedConstantRejected | lib/enum_field.rb:31-33 | a plural containing a space gives a name that Ruby rejects as a constant name |
| Registration.MessageFor | lib/enum_field.rb:30 | the message is `options[:message]` when given, otherwise `"invalid " + field` |
| Registration.Evaluate | lib/enum_field.rb:38 | a generated method answers whether the field equals the captured value exactly |
| Registration.InstallAll | lib/enum_field.rb:35-40 | the method table after the loop: each value in list order installs its method, replacing one of the same name |
| Registration.InstallAllKeys | lib/enum_field.rb:35-40 | after the loop, the method table holds exactly the old names plus the name of each value |
| Registration.InstallAllLatest | lib/enum_field.rb:35-40 | if every later value with the same name equals `values[j]`, then the method named after `values[j]` tests the field against `values[j]` |
| Registration.EarlierValueOverwritten | lib/enum_field.rb:35-40 | last write wins: if a later, different value has the same name and no value after it does, the method answers false on an instance that holds the earlier value |
| Registration.InstallAllUntouched | lib/enum_field.rb:35-40 | a method whose name is not generated from any value is kept, present or absent, with the same field and value |
| Registration.InstallAllGenerated | lib/enum_field.rb:35-40 | every generated method tests the registering field, against a value from the list that has that method's name |
| Registration.InstallAllWellNamed | lib/enum_field.rb:36-37 | the loop keeps every method named after the value it tests |
| Registration.PredicateSemantics | lib/enum_field.rb:37-39 | if no names collide, the method for a value returns true if and only if the field holds exactly that value (case-sensitive) |
| Registration.AtMostOneHolds | lib/enum_field.rb:37-39 | of two differently named methods generated by one call, at most one returns true for any instance |
| Registration.OptionsFor | lib/enum_field.rb:42-44 | the options hash: `:in` and `:message` always; `:allow_blank` and `:allow_nil`, set to true, only when asked for |
| Registration.OptionsForUnique | lib/enum_field.rb:42-44 | the description of the validation options allows exactly one hash |
| Registration.BuildValidationOptions | lib/enum_field.rb:42-44 | the hash has `:in` set to the values and `:message` set to the message; `:allow_blank` and `:allow_nil` are present, set to true, exactly when asked for |
| Registration.Host.constructor | test/enum_field_test.rb:11 | a class on which `enum_field` has not been called: it sees no constant of the generated names, has no generated methods and no rules, and keeps the naming invariant |
| Registration.Host.TrueQueryNamedAfterValue | lib/enum_field.rb:36-38 | in a class that keeps the naming invariant, a generated method that answers true is named after the value its field currently holds |
| Registration.Host.EnumField | lib/enum_field.rb:29-47 | a constant name Ruby rejects raises NameError and changes nothing. Otherwise: the constant is set to the values, in order, only if it did not exist; the method table becomes `InstallAll` of the old table; exactly one rule is appended, with the message `options[:message]` or `"invalid " + field`, and the earlier rules are kept; the naming invariant (every generated method is named after the value it tests) holds before and after |

## Left out

- `pluralize`: ActiveSupport's inflector is part of another library, so the model takes it as a parameter and does not check its rules.
- `validates_inclusion_of` at validation time: what the rule does, including its handling of blank and nil values, belongs to ActiveRecord. The model records only the rule that is registered.
- The `self.included` hook (lib/enum_field.rb:2-4) and the `send` calls are Ruby module plumbing. They have no behaviour of their own to state.
- Case mapping is ASCII-only. Ruby's Unicode-aware `downcase` and `upcase` are not modelled.
- The constant-name check is ASCII-only. A name that starts with a non-ASCII upper-case letter is rejected, although recent versions of Ruby accept it. A name containing `::` is rejected, although `const_defined?` would follow it as a path.
- Whitespace is Ruby's `\s`: space, tab, line feed, vertical tab, form feed and carriage return. Ruby versions older than 2.2 did not count the vertical tab.
- `const_defined?` also looks at inherited constants. The model's `constants` table stands for every constant the class can see; it does not separate a class's own constants from inherited ones.
- Aliasing: the constant and the `:in` option hold the caller's array object itself, so later changes to that array show through both. The model stores the values, not the object.
- `predicates` holds only the methods that `enum_field` generates. When a generated method replaces a method of the same name that the class already had, the model does not record it.
- Values that are not strings (where `downcase` or `gsub` would raise NoMethodError; a Symbol passes `downcase` and fails at `gsub`) are outside the model: `possible_values` is a list of strings.
- `MessageFor`: `:message` is modelled as a string only. The source passes any truthy value, such as a Symbol or a Proc, through unchanged to `validates_inclusion_of` (lib/enum_field.rb:30).
- A `:message` of `false` is treated like an absent one (both are `None`), as Ruby's `||` does. An empty string is kept, because it is truthy in Ruby.
- The tests' expectations for `'choice%one'`, `'other.'` and the non-ASCII value (test/enum_field_test.rb:87-105) contradict the code at lib/enum_field.rb:36. The model follows the code.
