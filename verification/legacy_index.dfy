/** The legacy synchronous `createConfig`: every feature whose option is truthy
    contributes its whole bundled fragment list, and the lists are appended in
    one fixed order, whatever order the option keys come in. The bundled lists
    are a parameter `lists` from option name to fragments. */
module LegacyIndex {
  import opened Seqs
  import opened Dicts
  import opened Js
  import opened LintConfig
  import Text

  /** The option names in the order their lists are appended. */
  const Order: seq<string> := [
    "javascript", "typescript", "perfectionist", "stylistic", "checkFile",
    "prettier", "unicorn", "sonar", "typeorm", "nest", "node", "tailwindCss",
    "yaml", "json", "regexp", "react", "packageJson"
  ]

  /** The bundled fragment list of each option name. */
  type Lists = string -> seq<Config>

  /** The sequence of `if (options.x) configs.push(...xConfig)` statements for the
      names in `order`, starting from the list built so far. */
  function Push(acc: seq<Config>, order: seq<string>, options: Dict<Value>, lists: Lists): seq<Config>
    decreases |order|
  {
    if order == [] then acc
    else Push(acc + (if Truthy(Get(options, order[0])) then lists(order[0]) else []), order[1..], options, lists)
  }

  /** `createConfig(options)`. */
  function CreateConfig(options: Dict<Value>, lists: Lists): seq<Config> {
    Push([], Order, options, lists)
  }

  /** The names of `order` whose option is truthy, in the order of `order`. */
  function Enabled(order: seq<string>, options: Dict<Value>): (r: seq<string>)
    ensures forall x :: x in r <==> x in order && Truthy(Get(options, x))
  {
    if order == [] then []
    else (if Truthy(Get(options, order[0])) then [order[0]] else []) + Enabled(order[1..], options)
  }

  /** The lists of the given names. */
  function ListsOf(names: seq<string>, lists: Lists): (r: seq<seq<Config>>)
    ensures |r| == |names|
    ensures forall i | 0 <= i < |names| :: r[i] == lists(names[i])
  {
    if names == [] then [] else [lists(names[0])] + ListsOf(names[1..], lists)
  }

  /** The push sequence appends the enabled lists, in the order of `order`, to
      what was built before. */
  lemma {:induction false} PushFlattens(acc: seq<Config>, order: seq<string>, options: Dict<Value>, lists: Lists)
    ensures Push(acc, order, options, lists) == acc + Flatten(ListsOf(Enabled(order, options), lists))
    decreases |order|
  {
    if order != [] {
      var x := order[0];
      var part := if Truthy(Get(options, x)) then lists(x) else [];
      var rest := Flatten(ListsOf(Enabled(order[1..], options), lists));
      PushFlattens(acc + part, order[1..], options, lists);
      AppendAssoc(acc, part, rest);
      if Truthy(Get(options, x)) {
        assert Enabled(order, options) == [x] + Enabled(order[1..], options);
        assert ListsOf(Enabled(order, options), lists)[1..] == ListsOf(Enabled(order[1..], options), lists);
      } else {
        assert Enabled(order, options) == Enabled(order[1..], options);
      }
    }
  }

  /** The result is the concatenation of the lists of the truthy options, in the
      fixed order, and its length is the sum of their lengths. */
  lemma CreateConfigFlattens(options: Dict<Value>, lists: Lists)
    ensures CreateConfig(options, lists) == Flatten(ListsOf(Enabled(Order, options), lists))
    ensures |CreateConfig(options, lists)| == SumLengths(ListsOf(Enabled(Order, options), lists))
  {
    PushFlattens([], Order, options, lists);
  }

  /** Only the value each name reads matters: two option objects that agree on
      every key, in whatever order their keys come, give the same names. */
  lemma {:induction false} EnabledReadsOnly(order: seq<string>, o1: Dict<Value>, o2: Dict<Value>)
    requires forall i | 0 <= i < |order| :: Truthy(Get(o1, order[i])) == Truthy(Get(o2, order[i]))
    ensures Enabled(order, o1) == Enabled(order, o2)
  {
    if order != [] {
      var rest := order[1..];
      forall i | 0 <= i < |rest| ensures Truthy(Get(o1, rest[i])) == Truthy(Get(o2, rest[i])) {
        assert rest[i] == order[i + 1];
      }
      EnabledReadsOnly(rest, o1, o2);
    }
  }

  /** The pushed result does not depend on the order of the option keys, only
      on which options are truthy. */
  lemma PushKeyOrder(order: seq<string>, o1: Dict<Value>, o2: Dict<Value>, lists: Lists)
    requires forall k :: Truthy(Get(o1, k)) == Truthy(Get(o2, k))
    ensures Push([], order, o1, lists) == Push([], order, o2, lists)
  {
    EnabledReadsOnly(order, o1, o2);
    PushFlattens([], order, o1, lists);
    PushFlattens([], order, o2, lists);
  }

  /** The result does not depend on the order of the option keys, only on which
      options are truthy. */
  lemma CreateConfigKeyOrder(o1: Dict<Value>, o2: Dict<Value>, lists: Lists)
    requires forall k :: Truthy(Get(o1, k)) == Truthy(Get(o2, k))
    ensures CreateConfig(o1, lists) == CreateConfig(o2, lists)
  {
    PushKeyOrder(Order, o1, o2, lists);
  }

  /** Options of which no name of the fixed order is truthy, including no options
      at all, give `[]`. */
  lemma CreateConfigNothingEnabled(options: Dict<Value>, lists: Lists)
    requires forall i | 0 <= i < |Order| :: !Truthy(Get(options, Order[i]))
    ensures CreateConfig(options, lists) == []
  {
    CreateConfigFlattens(options, lists);
    EnabledNone(Order, options);
  }

  /** No truthy name, no enabled name. */
  lemma {:induction false} EnabledNone(order: seq<string>, options: Dict<Value>)
    requires forall i | 0 <= i < |order| :: !Truthy(Get(options, order[i]))
    ensures Enabled(order, options) == []
  {
    if order != [] {
      var rest := order[1..];
      forall i | 0 <= i < |rest| ensures !Truthy(Get(options, rest[i])) {
        assert rest[i] == order[i + 1];
      }
      EnabledNone(rest, options);
    }
  }

  /** `createConfig()`: no options give `[]`. */
  lemma CreateConfigDefault(lists: Lists)
    ensures CreateConfig([], lists) == []
  {
    CreateConfigNothingEnabled([], lists);
  }

  /** The option keys the unit tests pass (`withJavascript` and the like) are not
      names this function reads, so such options give `[]`. */
  lemma CreateConfigPrefixedKeys(options: Dict<Value>, lists: Lists)
    requires forall i | 0 <= i < |options| :: Text.StartsWith(options[i].key, "with")
    ensures CreateConfig(options, lists) == []
  {
    forall i | 0 <= i < |Order| ensures !Truthy(Get(options, Order[i])) {
      NoOrderNameIsPrefixed(i);
      forall j | 0 <= j < |options| ensures Keys(options)[j] != Order[i] {
        assert Keys(options)[j] == options[j].key;
      }
      LookupNone(options, Order[i]);
    }
    CreateConfigNothingEnabled(options, lists);
  }

  /** No name of the fixed order begins with `with`. */
  lemma NoOrderNameIsPrefixed(i: nat)
    requires i < |Order|
    ensures !Text.StartsWith(Order[i], "with")
  {
    assert Order[i][0] != 'w';
  }

  /** Each enabled list sits whole and contiguous in the pushed result, right
      after the lists of the names enabled before it. */
  lemma PushContiguous(order: seq<string>, options: Dict<Value>, lists: Lists, j: nat)
    requires j < |Enabled(order, options)|
    ensures var parts := ListsOf(Enabled(order, options), lists);
      var at := SumLengths(parts[..j]);
      && at + |parts[j]| <= |Push([], order, options, lists)|
      && Push([], order, options, lists)[at..at + |parts[j]|] == lists(Enabled(order, options)[j])
  {
    PushFlattens([], order, options, lists);
    assert [] + Flatten(ListsOf(Enabled(order, options), lists)) == Flatten(ListsOf(Enabled(order, options), lists));
    FlattenSlice(ListsOf(Enabled(order, options), lists), j);
  }

  /** Each enabled list sits whole and contiguous in the result of
      `createConfig`, right after the lists of the names enabled before it. */
  lemma CreateConfigContiguous(options: Dict<Value>, lists: Lists, j: nat)
    requires j < |Enabled(Order, options)|
    ensures var parts := ListsOf(Enabled(Order, options), lists);
      var at := SumLengths(parts[..j]);
      && at + |parts[j]| <= |CreateConfig(options, lists)|
      && CreateConfig(options, lists)[at..at + |parts[j]|] == lists(Enabled(Order, options)[j])
  {
    PushContiguous(Order, options, lists, j);
  }
}
