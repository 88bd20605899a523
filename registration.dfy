/** The `enum_field` class macro.  The host class is abstracted as a record of
    three tables that the macro updates: its constants, its generated query
    methods, and its list of registered validation rules. */
module Registration {
  import opened Naming

  datatype Option<T> = None | Some(value: T)

  /** A generated query method `<name>?`.  Its body compares the current value
      of `field` with `value`, both captured when the method is defined. */
  datatype Predicate = Predicate(field: string, value: string)

  /** The recognised keys of the caller's options hash.  `message` is None when
      the key is absent or nil (or false); the two flags are the truthiness of
      `:allow_blank` and `:allow_nil`. */
  datatype Options = Options(message: Option<string>, allowBlank: bool, allowNil: bool)

  /** Keys and values of the options hash passed to `validates_inclusion_of`. */
  datatype OptionKey = In | Message | AllowBlank | AllowNil
  datatype OptionValue = Values(values: seq<string>) | Text(text: string) | Flag  // Flag is Ruby's `true`

  /** One `validates_inclusion_of field, options` registration. */
  datatype Rule = InclusionOf(field: string, options: map<OptionKey, OptionValue>)

  /** Registration either completes, or `const_defined?` raises NameError for a
      constant name Ruby does not accept. */
  datatype Outcome = Registered | WrongConstantName(name: string)

  /** The text of the validation message: `options[:message] || "invalid #{field}"`. */
  function MessageFor(field: string, given: Option<string>): (r: string) {
    match given
    case Some(text) => text
    case None => "invalid " + field
  }

  /** Calling a generated query method on an instance whose attribute reader is
      `read` (None stands for nil or a non-string value): exact, case-sensitive
      equality with the captured value. */
  predicate Evaluate(p: Predicate, read: string -> Option<string>) {
    read(p.field) == Some(p.value)
  }

  /** Every query method is named after the value it tests. */
  ghost predicate WellNamed(m: map<string, Predicate>) {
    forall k :: k in m ==> k == QueryName(m[k].value)
  }

  /** The names the registration loop defines for `values`. */
  function NamesOf(values: seq<string>): (r: set<string>) {
    set v | v in values :: QueryName(v)
  }

  /** The method table after `values.each { define_method(...) }`: each value in
      list order installs its query method, replacing any method of that name. */
  function InstallAll(m: map<string, Predicate>, field: string, values: seq<string>): (r: map<string, Predicate>)
    decreases |values|
  {
    if values == [] then m
    else
      var last := values[|values| - 1];
      InstallAll(m, field, values[..|values| - 1])[QueryName(last) := Predicate(field, last)]
  }

  /** The loop adds exactly the names of the values to the method table. */
  lemma {:induction false} InstallAllKeys(m: map<string, Predicate>, field: string, values: seq<string>)
    ensures InstallAll(m, field, values).Keys == m.Keys + NamesOf(values)
    decreases |values|
  {
    if values != [] {
      var prefix, last := values[..|values| - 1], values[|values| - 1];
      InstallAllKeys(m, field, prefix);
      assert values == prefix + [last];
      assert NamesOf(values) == NamesOf(prefix) + {QueryName(last)};
    }
  }

  /** A value whose later namesakes (if any) are all equal to it owns the
      method named after it: that method tests `field` against this value. */
  lemma {:induction false} InstallAllLatest(m: map<string, Predicate>, field: string, values: seq<string>, j: int)
    requires 0 <= j < |values|
    requires forall k :: j < k < |values| && QueryName(values[k]) == QueryName(values[j]) ==> values[k] == values[j]
    ensures QueryName(values[j]) in InstallAll(m, field, values)
    ensures InstallAll(m, field, values)[QueryName(values[j])] == Predicate(field, values[j])
    decreases |values|
  {
    var n := |values|;
    var prefix, last := values[..n - 1], values[n - 1];
    assert InstallAll(m, field, values) == InstallAll(m, field, prefix)[QueryName(last) := Predicate(field, last)];
    if j < n - 1 {
      assert forall k :: j < k < |prefix| ==> prefix[k] == values[k];
      InstallAllLatest(m, field, prefix, j);
    }
  }

  /** Last write wins: when an earlier value shares its name with a later,
      different value, the method of that name answers false for an instance
      holding the earlier value. */
  lemma {:induction false} EarlierValueOverwritten(m: map<string, Predicate>, field: string, values: seq<string>, a: int, b: int, read: string -> Option<string>)
    requires 0 <= a < b < |values|
    requires QueryName(values[a]) == QueryName(values[b]) && values[a] != values[b]
    requires forall k :: b < k < |values| ==> QueryName(values[k]) != QueryName(values[b])
    requires read(field) == Some(values[a])
    ensures QueryName(values[a]) in InstallAll(m, field, values)
    ensures !Evaluate(InstallAll(m, field, values)[QueryName(values[a])], read)
  {
    InstallAllLatest(m, field, values, b);
  }

  /** Methods not named after any of the values are left as they were. */
  lemma {:induction false} InstallAllUntouched(m: map<string, Predicate>, field: string, values: seq<string>, name: string)
    requires name !in NamesOf(values)
    ensures name in InstallAll(m, field, values) <==> name in m
    ensures name in m ==> InstallAll(m, field, values)[name] == m[name]
    decreases |values|
  {
    if values != [] {
      var prefix := values[..|values| - 1];
      assert NamesOf(prefix) <= NamesOf(values);
      InstallAllUntouched(m, field, prefix, name);
    }
  }

  /** Every method defined for a value tests `field` against one of the values
      that carries that name. */
  lemma {:induction false} InstallAllGenerated(m: map<string, Predicate>, field: string, values: seq<string>, j: int)
    requires 0 <= j < |values|
    ensures QueryName(values[j]) in InstallAll(m, field, values)
    ensures var p := InstallAll(m, field, values)[QueryName(values[j])];
      p.field == field && p.value in values && QueryName(p.value) == QueryName(values[j])
    decreases |values|
  {
    var n := |values|;
    var prefix, last := values[..n - 1], values[n - 1];
    var before := InstallAll(m, field, prefix);
    assert InstallAll(m, field, values) == before[QueryName(last) := Predicate(field, last)];
    if QueryName(last) == QueryName(values[j]) {
      assert last == values[n - 1];
    } else {
      InstallAllGenerated(m, field, prefix, j);
      assert prefix[j] == values[j];
      var p := before[QueryName(values[j])];
      assert p.value in prefix;
      assert values == prefix + [last];
    }
  }

  /** The registration loop keeps every method named after the value it tests. */
  lemma {:induction false} InstallAllWellNamed(m: map<string, Predicate>, field: string, values: seq<string>)
    requires WellNamed(m)
    ensures WellNamed(InstallAll(m, field, values))
    decreases |values|
  {
    if values != [] {
      InstallAllWellNamed(m, field, values[..|values| - 1]);
    }
  }

  /** No two distinct values of the list share a method name. */
  ghost predicate NoNameCollisions(values: seq<string>) {
    forall a, b :: 0 <= a < |values| && 0 <= b < |values| && QueryName(values[a]) == QueryName(values[b]) ==> values[a] == values[b]
  }

  /** Without name collisions, the method for each value answers true exactly
      when the field holds that value, compared exactly and case-sensitively. */
  lemma {:induction false} PredicateSemantics(m: map<string, Predicate>, field: string, values: seq<string>, j: int, read: string -> Option<string>)
    requires 0 <= j < |values|
    requires NoNameCollisions(values)
    ensures QueryName(values[j]) in InstallAll(m, field, values)
    ensures Evaluate(InstallAll(m, field, values)[QueryName(values[j])], read) <==> read(field) == Some(values[j])
  {
    InstallAllLatest(m, field, values, j);
  }

  /** Of two differently named methods generated for the same field, at most one
      answers true for any instance. */
  lemma AtMostOneHolds(m: map<string, Predicate>, field: string, values: seq<string>, a: int, b: int, read: string -> Option<string>)
    requires 0 <= a < |values| && 0 <= b < |values|
    requires QueryName(values[a]) != QueryName(values[b])
    ensures QueryName(values[a]) in InstallAll(m, field, values)
    ensures QueryName(values[b]) in InstallAll(m, field, values)
    ensures !(Evaluate(InstallAll(m, field, values)[QueryName(values[a])], read)
              && Evaluate(InstallAll(m, field, values)[QueryName(values[b])], read))
  {
    InstallAllGenerated(m, field, values, a);
    InstallAllGenerated(m, field, values, b);
  }

  /** The options hash given to `validates_inclusion_of`: `:in` and `:message`
      always, `:allow_blank` and `:allow_nil` (set to true) only when asked for. */
  ghost predicate OptionsFor(opts: map<OptionKey, OptionValue>, values: seq<string>, message: string, allowBlank: bool, allowNil: bool) {
    && opts.Keys == {In, Message} + (if allowBlank then {AllowBlank} else {}) + (if allowNil then {AllowNil} else {})
    && opts[In] == Values(values)
    && opts[Message] == Text(message)
    && (AllowBlank in opts ==> opts[AllowBlank] == Flag)
    && (AllowNil in opts ==> opts[AllowNil] == Flag)
  }

  /** `OptionsFor` leaves no freedom: it describes a single hash. */
  lemma OptionsForUnique(o1: map<OptionKey, OptionValue>, o2: map<OptionKey, OptionValue>, values: seq<string>, message: string, allowBlank: bool, allowNil: bool)
    requires OptionsFor(o1, values, message, allowBlank, allowNil)
    requires OptionsFor(o2, values, message, allowBlank, allowNil)
    ensures o1 == o2
  {
  }

  /** Builds `options_for_validates` in place. */
  method BuildValidationOptions(values: seq<string>, message: string, allowBlank: bool, allowNil: bool)
    returns (opts: map<OptionKey, OptionValue>)
    ensures OptionsFor(opts, values, message, allowBlank, allowNil)
  {
    opts := map[In := Values(values), Message := Text(message)];
    if allowBlank {
      opts := opts[AllowBlank := Flag];
    }
    if allowNil {
      opts := opts[AllowNil := Flag];
    }
  }

  /** A class that includes `EnumField`, reduced to what `enum_field` changes. */
  class Host {
    var constants: map<string, seq<string>>
    var predicates: map<string, Predicate>
    var validations: seq<Rule>

    constructor ()
      ensures constants == map[] && predicates == map[] && validations == []
      ensures Valid()
    {
      constants, predicates, validations := map[], map[], [];
    }

    /** The invariant every registration keeps. */
    ghost predicate Valid()
      reads this
    {
      WellNamed(predicates)
    }

    /** A query method that answers true is named after the value its field
        currently holds. */
    lemma TrueQueryNamedAfterValue(name: string, read: string -> Option<string>)
      requires Valid()
      requires name in predicates && Evaluate(predicates[name], read)
      ensures read(predicates[name].field).Some?
      ensures name == QueryName(read(predicates[name].field).value)
    {
    }

    /** `enum_field field, possible_values, options`.  The inflector's
        `pluralize` is supplied by the caller. */
    method EnumField(field: string, possibleValues: seq<string>, options: Options, pluralize: string -> string)
      returns (outcome: Outcome)
      requires Valid()
      modifies this
      ensures var name := ConstantName(pluralize(field));
        outcome == if IsConstantName(name) then Registered else WrongConstantName(name)
      ensures outcome.WrongConstantName? ==>
        constants == old(constants) && predicates == old(predicates) && validations == old(validations)
      ensures outcome.Registered? ==>
        var name := ConstantName(pluralize(field));
        constants == if name in old(constants) then old(constants) else old(constants)[name := possibleValues]
      ensures outcome.Registered? ==> predicates == InstallAll(old(predicates), field, possibleValues)
      ensures outcome.Registered? ==>
        && |validations| == |old(validations)| + 1
        && validations[..|old(validations)|] == old(validations)
        && validations[|old(validations)|].field == field
        && OptionsFor(validations[|old(validations)|].options, possibleValues,
                      MessageFor(field, options.message), options.allowBlank, options.allowNil)
      ensures Valid()
    {
      var message := MessageFor(field, options.message);
      var constName := ConstantName(pluralize(field));
      if !IsConstantName(constName) {
        return WrongConstantName(constName);
      }
      if constName !in constants {
        constants := constants[constName := possibleValues];
      }
      var i := 0;
      while i < |possibleValues|
        invariant 0 <= i <= |possibleValues|
        invariant predicates == InstallAll(old(predicates), field, possibleValues[..i])
        invariant constants == if constName in old(constants) then old(constants) else old(constants)[constName := possibleValues]
        invariant validations == old(validations)
      {
        var currentValue := possibleValues[i];
        assert possibleValues[..i + 1][..i] == possibleValues[..i];
        predicates := predicates[QueryName(currentValue) := Predicate(field, currentValue)];
        i := i + 1;
      }
      assert possibleValues[..i] == possibleValues;
      var optionsForValidates := BuildValidationOptions(possibleValues, message, options.allowBlank, options.allowNil);
      validations := validations + [InclusionOf(field, optionsForValidates)];
      InstallAllWellNamed(old(predicates), field, possibleValues);
      outcome := Registered;
    }
  }
}
