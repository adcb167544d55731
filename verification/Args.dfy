/** Command line arguments from the user's and the controller's maps: canonical, and when they can be read back. */
module Args {
  import opened Common
  import opened Ordering

  datatype ArgOption = ArgOption(prefix: Option<string>, delimiter: Option<string>)

  type Entry = (string, string)

  function Emit(prefix: string, joiner: string, e: Entry): seq<string> {
    if joiner == " " then [prefix + e.0, e.1] else [prefix + e.0 + joiner + e.1]
  }

  function EmitAll(prefix: string, joiner: string, entries: seq<Entry>): seq<string> {
    if entries == [] then [] else Emit(prefix, joiner, entries[0]) + EmitAll(prefix, joiner, entries[1..])
  }

  function Prefix(opts: Option<ArgOption>): string {
    if opts.Some? && opts.value.prefix.Some? then opts.value.prefix.value else "--"
  }

  function Joiner(opts: Option<ArgOption>): string {
    if opts.Some? && opts.value.delimiter.Some? then opts.value.delimiter.value else "="
  }

  /** The merged map in key order; the controller's value wins. */
  ghost function Merged(userArgs: map<string, string>, controllerArgs: map<string, string>): seq<Entry> {
    SortedEntries(userArgs + controllerArgs, StringBefore)
  }

  /** The user's arguments that lose against a different value of the controller, each to be warned about once. */
  function Overridden(userArgs: map<string, string>, controllerArgs: map<string, string>)
    : map<string, (string, string)>
  {
    map k | k in userArgs && k in controllerArgs && userArgs[k] != controllerArgs[k] :: (userArgs[k], controllerArgs[k])
  }

  method WarnOverridden(userArgs: map<string, string>, controllerArgs: map<string, string>)
    returns (warned: seq<(string, (string, string))>)
    ensures IsEnumeration(warned, Overridden(userArgs, controllerArgs))
    ensures forall k, u, c :: (k, (u, c)) in warned <==>
              && k in userArgs && userArgs[k] == u && k in controllerArgs && controllerArgs[k] == c && u != c
  {
    var pairs := ToPairs(userArgs);
    warned := [];
    for i := 0 to |pairs|
      invariant forall w :: w in warned ==> (w.0, w.1.0) in pairs[..i]
      invariant forall w :: w in warned ==> w.0 in controllerArgs && w.1.1 == controllerArgs[w.0] && w.1.0 != w.1.1
      invariant forall j, k :: 0 <= j < k < |warned| ==> warned[j].0 != warned[k].0
      invariant forall j :: 0 <= j < i && pairs[j].0 in controllerArgs && pairs[j].1 != controllerArgs[pairs[j].0] ==>
                  (pairs[j].0, (pairs[j].1, controllerArgs[pairs[j].0])) in warned
    {
      var (key, userValue) := pairs[i];
      assert pairs[..i + 1] == pairs[..i] + [pairs[i]];
      if key in controllerArgs && userValue != controllerArgs[key] {
        assert forall w :: w in warned ==> w.0 != key;
        warned := warned + [(key, (userValue, controllerArgs[key]))];
      }
    }
    assert pairs[..|pairs|] == pairs;
  }

  method MergeArgs(userArgs: map<string, string>, controllerArgs: map<string, string>, opts: Option<ArgOption>)
    returns (args: seq<string>)
    ensures args == EmitAll(Prefix(opts), Joiner(opts), Merged(userArgs, controllerArgs))
  {
    var prefix, joiner := Prefix(opts), Joiner(opts);
    var pairs := ToPairs(userArgs + controllerArgs);
    StringBeforeIsTotal();
    IterationOrderIsIrrelevant(pairs, userArgs + controllerArgs, StringBefore);
    var sorted := Sort(pairs, ByKey(StringBefore));
    args := FlatMap(prefix, joiner, sorted);
  }

  method FlatMap(prefix: string, joiner: string, entries: seq<Entry>) returns (args: seq<string>)
    ensures args == EmitAll(prefix, joiner, entries)
  {
    args := [];
    for i := 0 to |entries|
      invariant args + EmitAll(prefix, joiner, entries[i..]) == EmitAll(prefix, joiner, entries)
    {
      assert entries[i..][1..] == entries[i + 1..];
      args := args + Emit(prefix, joiner, entries[i]);
    }
  }

  /** One entry per key of either map, keys strictly increasing, the controller's value where both have one. */
  lemma MergedEntries(userArgs: map<string, string>, controllerArgs: map<string, string>)
    ensures var s := Merged(userArgs, controllerArgs);
            && (forall i, j :: 0 <= i < j < |s| ==> StringBefore(s[i].0, s[j].0))
            && (forall k :: k in controllerArgs ==> (k, controllerArgs[k]) in s)
            && (forall k :: k in userArgs && k !in controllerArgs ==> (k, userArgs[k]) in s)
            && (forall e :: e in s ==> e.0 in userArgs || e.0 in controllerArgs)
  {
    StringBeforeIsTotal();
    SortedEntriesEnumerate(userArgs + controllerArgs, StringBefore);
    var m := userArgs + controllerArgs;
    assert forall k :: k in controllerArgs ==> k in m && m[k] == controllerArgs[k];
    assert forall k :: k in userArgs && k !in controllerArgs ==> k in m && m[k] == userArgs[k];
  }

  /** The options' defaults, and that an option that is set wins. */
  lemma OptionsExactly(prefix: string, delimiter: string)
    ensures Prefix(None) == "--" && Joiner(None) == "="
    ensures Prefix(Some(ArgOption(None, None))) == "--" && Joiner(Some(ArgOption(None, None))) == "="
    ensures Prefix(Some(ArgOption(Some(prefix), None))) == prefix && Joiner(Some(ArgOption(Some(prefix), None))) == "="
    ensures Prefix(Some(ArgOption(None, Some(delimiter)))) == "--"
    ensures Joiner(Some(ArgOption(None, Some(delimiter)))) == delimiter
    ensures var both := Some(ArgOption(Some(prefix), Some(delimiter)));
            Prefix(both) == prefix && Joiner(both) == delimiter
  {
  }

  /** One argument per entry, in order; with a space as joiner, two. */
  lemma {:induction false} ArgumentsExactly(prefix: string, joiner: string, entries: seq<Entry>, i: nat)
    requires i < |entries|
    ensures var args := EmitAll(prefix, joiner, entries);
            if joiner == " " then
              && |args| == 2 * |entries|
              && args[2 * i] == prefix + entries[i].0 && args[2 * i + 1] == entries[i].1
            else
              && |args| == |entries|
              && args[i] == prefix + entries[i].0 + joiner + entries[i].1
    decreases |entries|
  {
    EmittedCount(prefix, joiner, entries);
    EmittedCount(prefix, joiner, entries[1..]);
    if i > 0 {
      ArgumentsExactly(prefix, joiner, entries[1..], i - 1);
    }
  }

  lemma {:induction false} EmittedCount(prefix: string, joiner: string, entries: seq<Entry>)
    ensures |EmitAll(prefix, joiner, entries)| == if joiner == " " then 2 * |entries| else |entries|
    decreases |entries|
  {
    if entries != [] {
      EmittedCount(prefix, joiner, entries[1..]);
    }
  }

  // ---------------------------------------------------------------- reading arguments back

  /** Where `sub` first occurs in `s`. */
  function Find(s: string, sub: string): (r: Option<nat>)
    ensures r.Some? ==> r.value + |sub| <= |s| && s[r.value..r.value + |sub|] == sub
  {
    if sub <= s then Some(0)
    else if s == "" then None
    else
      var r := Find(s[1..], sub);
      if r.None? then None else Some(r.value + 1)
  }

  /** Splitting an argument at the first joiner after the prefix. */
  function DecodeArg(arg: string, prefix: string, joiner: string): Option<Entry> {
    if !(prefix <= arg) then None
    else
      var rest := arg[|prefix|..];
      var at := Find(rest, joiner);
      if at.None? then None else Some((rest[..at.value], rest[at.value + |joiner|..]))
  }

  function Decode(args: seq<string>, prefix: string, joiner: string): Option<seq<Entry>>
    decreases |args|
  {
    if args == [] then Some([])
    else if joiner == " " then
      if |args| == 1 || !(prefix <= args[0]) then None
      else
        var rest := Decode(args[2..], prefix, joiner);
        if rest.None? then None else Some([(args[0][|prefix|..], args[1])] + rest.value)
    else
      var first, rest := DecodeArg(args[0], prefix, joiner), Decode(args[1..], prefix, joiner);
      if first.None? || rest.None? then None else Some([first.value] + rest.value)
  }

  /** The joiner does not start inside the key. */
  predicate Decodable(key: string, joiner: string) {
    joiner == " " || Find(key + joiner, joiner) == Some(|key|)
  }

  lemma {:induction false} ValueDoesNotMatter(key: string, joiner: string, value: string)
    ensures Find(key + joiner + value, joiner) == Find(key + joiner, joiner)
    ensures Find(key + joiner, joiner).Some?
  {
    var s, t := key + joiner + value, key + joiner;
    assert t == s[..|t|];
    assert joiner <= s <==> joiner <= t;
    if key != "" && !(joiner <= t) {
      assert s[1..] == key[1..] + joiner + value && t[1..] == key[1..] + joiner;
      ValueDoesNotMatter(key[1..], joiner, value);
    } else if key == "" {
      assert t == joiner;
    }
  }

  lemma DecodeOneExactly(prefix: string, joiner: string, e: Entry)
    requires joiner != " "
    ensures DecodeArg(prefix + e.0 + joiner + e.1, prefix, joiner) == Some(e) <==> Decodable(e.0, joiner)
  {
    var arg := prefix + e.0 + joiner + e.1;
    var rest := e.0 + joiner + e.1;
    assert prefix <= arg && arg[|prefix|..] == rest;
    ValueDoesNotMatter(e.0, joiner, e.1);
    var i := Find(rest, joiner).value;
    if i == |e.0| {
      assert rest[..i] == e.0 && rest[i + |joiner|..] == e.1;
    } else {
      assert |rest[..i]| == i;
    }
  }

  lemma DecodePair(prefix: string, e: Entry, tail: seq<string>)
    ensures var rest := Decode(tail, prefix, " ");
            Decode([prefix + e.0, e.1] + tail, prefix, " ") ==
            if rest.None? then None else Some([e] + rest.value)
  {
    var args := [prefix + e.0, e.1] + tail;
    assert args[2..] == tail && args[0][|prefix|..] == e.0;
  }

  /** The arguments read back as the entries they came from exactly when no key hides an earlier joiner. */
  lemma {:induction false} DecodeExactly(prefix: string, joiner: string, entries: seq<Entry>)
    ensures Decode(EmitAll(prefix, joiner, entries), prefix, joiner) == Some(entries) <==>
            forall e :: e in entries ==> Decodable(e.0, joiner)
    decreases |entries|
  {
    if entries != [] {
      var e, rest := entries[0], entries[1..];
      var tail := EmitAll(prefix, joiner, rest);
      var args := EmitAll(prefix, joiner, entries);
      DecodeExactly(prefix, joiner, rest);
      assert entries == [e] + rest;
      if joiner == " " {
        DecodePair(prefix, e, tail);
        assert args == [prefix + e.0, e.1] + tail;
      } else {
        assert args[0] == prefix + e.0 + joiner + e.1 && args[1..] == tail;
        DecodeOneExactly(prefix, joiner, e);
        DecodeParts(args, prefix, joiner, entries);
      }
    }
  }

  lemma DecodeParts(args: seq<string>, prefix: string, joiner: string, entries: seq<Entry>)
    requires args != [] && entries != [] && joiner != " "
    ensures Decode(args, prefix, joiner) == Some(entries) <==>
            && DecodeArg(args[0], prefix, joiner) == Some(entries[0])
            && Decode(args[1..], prefix, joiner) == Some(entries[1..])
  {
    assert entries == [entries[0]] + entries[1..];
  }

  /** With the default joiner only a key with an equals sign in it is ambiguous. */
  lemma {:induction false} SingleCharacterJoiner(key: string, c: char)
    ensures Find(key + [c], [c]) == Some(|key|) <==> c !in key
  {
    if key == "" {
    } else {
      assert (key + [c])[1..] == key[1..] + [c];
      assert key == [key[0]] + key[1..];
      SingleCharacterJoiner(key[1..], c);
      ValueDoesNotMatter(key[1..], [c], "");
      assert (key + [c])[..1] == [key[0]];
    }
  }

  /**
   * Whatever the options, the merged arguments of the two maps read back as the merged map, exactly when the joiner
   * starts inside no key of either.
   */
  lemma ArgumentsReadBackExactly(
    userArgs: map<string, string>, controllerArgs: map<string, string>, opts: Option<ArgOption>)
    ensures var merged := Merged(userArgs, controllerArgs);
            Decode(EmitAll(Prefix(opts), Joiner(opts), merged), Prefix(opts), Joiner(opts)) == Some(merged) <==>
            forall k :: k in userArgs || k in controllerArgs ==> Decodable(k, Joiner(opts))
  {
    var merged := Merged(userArgs, controllerArgs);
    DecodeExactly(Prefix(opts), Joiner(opts), merged);
    MergedEntries(userArgs, controllerArgs);
    forall k | k in userArgs || k in controllerArgs
      ensures exists e :: e in merged && e.0 == k
    {
      assert (k, if k in controllerArgs then controllerArgs[k] else userArgs[k]) in merged;
    }
  }

  // ---------------------------------------------------------------- the arguments as strings are not always sorted

  lemma {:induction false} CommonPrefix(p: string, a: string, b: string)
    ensures StringBefore(p + a, p + b) <==> StringBefore(a, b)
  {
    if p == "" {
      assert p + a == a && p + b == b;
    } else {
      assert (p + a)[1..] == p[1..] + a && (p + b)[1..] == p[1..] + b;
      CommonPrefix(p[1..], a, b);
    }
  }

  lemma {:induction false} DecidedByKeys(k: string, l: string, a: string, b: string)
    requires StringBefore(k, l) && !(k <= l)
    ensures StringBefore(k + a, l + b)
  {
    if k[0] == l[0] {
      assert (k + a)[1..] == k[1..] + a && (l + b)[1..] == l[1..] + b;
      assert k == [k[0]] + k[1..] && l == [l[0]] + l[1..];
      DecidedByKeys(k[1..], l[1..], a, b);
    }
  }

  lemma KeysThenRest(k: string, l: string, a: string, b: string)
    requires StringBefore(k, l)
    ensures StringBefore(k + a, l + b) <==> !(k <= l) || StringBefore(a, l[|k|..] + b)
  {
    if k <= l {
      assert l + b == k + (l[|k|..] + b);
      CommonPrefix(k, a, l[|k|..] + b);
    } else {
      DecidedByKeys(k, l, a, b);
    }
  }

  /** Two arguments in key order are in string order exactly if the keys decide, or what follows the shared key does. */
  lemma StringOrderExactly(prefix: string, joiner: string, d: Entry, e: Entry)
    requires StringBefore(d.0, e.0)
    ensures StringBefore(prefix + d.0 + joiner + d.1, prefix + e.0 + joiner + e.1) <==>
            !(d.0 <= e.0) || StringBefore(joiner + d.1, e.0[|d.0|..] + (joiner + e.1))
  {
    var a, b := joiner + d.1, joiner + e.1;
    KeysThenRest(d.0, e.0, a, b);
    CommonPrefix(prefix, d.0 + a, e.0 + b);
    Regroup(prefix, d.0, joiner, d.1);
    Regroup(prefix, e.0, joiner, e.1);
  }

  lemma Regroup(a: string, b: string, c: string, d: string)
    ensures a + b + c + d == a + (b + (c + d))
  {
  }

  /** Key "a" sorts before key "a-b", but its argument sorts after the other's. */
  lemma SortedKeysUnsortedArguments(v: string, w: string)
    ensures StringBefore("a", "a-b")
    ensures !StringBefore("--" + "a" + "=" + v, "--" + "a-b" + "=" + w)
  {
    assert "a-b"[1..] == "-b" && "a"[1..] == "";
    assert "a" <= "a-b";
    assert StringBefore("a", "a-b");
    StringOrderExactly("--", "=", ("a", v), ("a-b", w));
    assert ("=" + v)[0] == '=' && ("-b" + ("=" + w))[0] == '-';
  }
}
