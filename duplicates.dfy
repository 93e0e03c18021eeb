/**
 * `CommandValidator.check_duplicates` (src/sync_engine/validation.py): the
 * commands are grouped by namespace and, within a namespace, by name; every
 * name shared by two or more commands of one namespace gives one error.
 *
 * Python dictionaries iterate in insertion order, so the groups are reported
 * in the order their first member appears. The model states that order with
 * `Distinct` (first occurrences, in order) and order-preserving filters. Names
 * are dictionary keys, so they compare as keys do (`KeyOf`: True is 1 and
 * False is 0), and the name shown is that of the group's first member, the
 * key the dictionary keeps.
 */
module Duplicates {
  import opened Text
  import opened Values
  import opened Parser
  import opened Validation

  /** The first occurrence of every element of `xs`, in order. */
  function Distinct<T(==, !new)>(xs: seq<T>): (d: seq<T>)
    ensures forall x :: x in d <==> x in xs
    ensures forall i, j :: 0 <= i < j < |d| ==> d[i] != d[j]
  {
    if xs == [] then []
    else
      var init := Distinct(xs[..|xs| - 1]);
      var last := xs[|xs| - 1];
      assert forall x :: x in xs <==> x in xs[..|xs| - 1] || x == last by {
        assert xs == xs[..|xs| - 1] + [last];
      }
      if last in xs[..|xs| - 1] then init else init + [last]
  }

  /** Appending an element adds it to the first occurrences unless it is already there. */
  lemma DistinctSnoc<T(!new)>(xs: seq<T>, x: T)
    ensures Distinct(xs + [x]) == if x in xs then Distinct(xs) else Distinct(xs) + [x]
  {
    assert (xs + [x])[..|xs|] == xs;
  }

  /** The key a command's name stands for in the name dictionary. */
  function Key(c: Command): Value {
    KeyOf(c.name)
  }

  /** The namespace of every command, in order. */
  function Namespaces(cs: seq<Command>): (r: seq<string>)
    ensures |r| == |cs| && forall i :: 0 <= i < |cs| ==> r[i] == cs[i].namespace
  {
    if cs == [] then [] else Namespaces(cs[..|cs| - 1]) + [cs[|cs| - 1].namespace]
  }

  /** The key of every command, in order. */
  function Keys(cs: seq<Command>): (r: seq<Value>)
    ensures |r| == |cs| && forall i :: 0 <= i < |cs| ==> r[i] == Key(cs[i])
  {
    if cs == [] then [] else Keys(cs[..|cs| - 1]) + [Key(cs[|cs| - 1])]
  }

  /** The commands of namespace `ns`, in order. */
  function InNamespace(cs: seq<Command>, ns: string): seq<Command> {
    if cs == [] then []
    else InNamespace(cs[..|cs| - 1], ns) + (if cs[|cs| - 1].namespace == ns then [cs[|cs| - 1]] else [])
  }

  /** The commands whose name has key `k`, in order. */
  function WithKey(cs: seq<Command>, k: Value): seq<Command> {
    if cs == [] then []
    else WithKey(cs[..|cs| - 1], k) + (if Key(cs[|cs| - 1]) == k then [cs[|cs| - 1]] else [])
  }

  /** The commands of namespace `ns` whose name has key `k`, in input order. */
  function Matching(cs: seq<Command>, ns: string, k: Value): (r: seq<Command>)
    ensures forall i :: 0 <= i < |r| ==> r[i] in cs && r[i].namespace == ns && Key(r[i]) == k
    ensures forall c :: c in cs && c.namespace == ns && Key(c) == k ==> c in r
  {
    if cs == [] then []
    else
      var last := cs[|cs| - 1];
      assert cs == cs[..|cs| - 1] + [last];
      Matching(cs[..|cs| - 1], ns, k) + (if last.namespace == ns && Key(last) == k then [last] else [])
  }

  /** Grouping keeps input order: the group of a concatenation is the groups concatenated. */
  lemma {:induction false} MatchingAppend(a: seq<Command>, b: seq<Command>, ns: string, k: Value)
    ensures Matching(a + b, ns, k) == Matching(a, ns, k) + Matching(b, ns, k)
    decreases |b|
  {
    if b == [] {
      assert a + b == a;
    } else {
      var init := b[..|b| - 1];
      assert (a + b)[..|a + b| - 1] == a + init;
      assert (a + b)[|a + b| - 1] == b[|b| - 1];
      MatchingAppend(a, init, ns, k);
    }
  }

  /** `str(path)` of every command, in order. */
  function PathTexts(cs: seq<Command>): (r: seq<string>)
    ensures |r| == |cs| && forall i :: 0 <= i < |cs| ==> r[i] == PathText(cs[i].sourcePath)
  {
    if cs == [] then [] else PathTexts(cs[..|cs| - 1]) + [PathText(cs[|cs| - 1].sourcePath)]
  }

  /** How a namespace is named in a message: "" is the root namespace. */
  function NamespaceDisplay(ns: string): string {
    if ns != "" then "namespace '" + ns + "'" else "root namespace"
  }

  function DuplicateMessage(ns: string, group: seq<Command>): string
    requires group != [] && Hashable(group[0].name)
  {
    "Duplicate command name '" + Render(group[0].name) + "' found in " + NamespaceDisplay(ns)
    + ": " + Join(", ", PathTexts(group))
  }

  /** The error recorded for the commands `group` of namespace `ns` sharing one name. */
  function DuplicateError(ns: string, group: seq<Command>): ValidationError
    requires group != [] && Hashable(group[0].name)
  {
    ValidationError(DuplicateMessage(ns, group), Some("name"), None, Error)
  }

  /** Every name can be a dictionary key (lists and mappings cannot). */
  predicate NamesHashable(cs: seq<Command>) {
    forall c :: c in cs ==> Hashable(c.name)
  }

  /** The errors for namespace `ns`, one per key of `keys` held by two or more of its commands. */
  function KeyErrors(cs: seq<Command>, ns: string, keys: seq<Value>): seq<ValidationError>
    requires NamesHashable(cs)
  {
    if keys == [] then []
    else
      var m := Matching(cs, ns, keys[|keys| - 1]);
      KeyErrors(cs, ns, keys[..|keys| - 1]) + (if |m| > 1 then [DuplicateError(ns, m)] else [])
  }

  /** The errors of the namespaces `nss`, each with its keys in insertion order. */
  function NamespaceErrors(cs: seq<Command>, nss: seq<string>): seq<ValidationError>
    requires NamesHashable(cs)
  {
    if nss == [] then []
    else
      var ns := nss[|nss| - 1];
      NamespaceErrors(cs, nss[..|nss| - 1]) + KeyErrors(cs, ns, Distinct(Keys(InNamespace(cs, ns))))
  }

  /** The errors `check_duplicates` records. */
  function DuplicateErrors(cs: seq<Command>): seq<ValidationError>
    requires NamesHashable(cs)
  {
    NamespaceErrors(cs, Distinct(Namespaces(cs)))
  }

  /* ---------------- the reported (namespace, key) pairs ---------------- */

  /** The pairs of namespace `ns` reported for the keys `keys`, in that order. */
  function GroupsIn(cs: seq<Command>, ns: string, keys: seq<Value>): (r: seq<(string, Value)>)
    ensures forall i :: 0 <= i < |r| ==> r[i].0 == ns && r[i].1 in keys
  {
    if keys == [] then []
    else
      var k := keys[|keys| - 1];
      var r := GroupsIn(cs, ns, keys[..|keys| - 1]) + (if |Matching(cs, ns, k)| > 1 then [(ns, k)] else []);
      assert forall x :: x in keys[..|keys| - 1] ==> x in keys;
      r
  }

  /** The reported pairs of the namespaces `nss`, namespace by namespace. */
  function GroupsOver(cs: seq<Command>, nss: seq<string>): (r: seq<(string, Value)>)
    ensures forall i :: 0 <= i < |r| ==> r[i].0 in nss
  {
    if nss == [] then []
    else
      var ns := nss[|nss| - 1];
      var r := GroupsOver(cs, nss[..|nss| - 1]) + GroupsIn(cs, ns, Distinct(Keys(InNamespace(cs, ns))));
      assert forall x :: x in nss[..|nss| - 1] ==> x in nss;
      r
  }

  /** The (namespace, key) pairs `check_duplicates` reports, in report order. */
  function DuplicateGroups(cs: seq<Command>): seq<(string, Value)> {
    GroupsOver(cs, Distinct(Namespaces(cs)))
  }

  /** `e` is the error reported for the pair `g`. */
  predicate Describes(cs: seq<Command>, e: ValidationError, g: (string, Value)) {
    var m := Matching(cs, g.0, g.1);
    |m| > 1 && Hashable(m[0].name) && e == DuplicateError(g.0, m)
  }

  predicate DescribesAll(cs: seq<Command>, es: seq<ValidationError>, gs: seq<(string, Value)>) {
    |es| == |gs| && forall i :: 0 <= i < |es| ==> Describes(cs, es[i], gs[i])
  }

  /* ---------------- filters ---------------- */

  lemma {:induction false} InNamespaceNone(cs: seq<Command>, ns: string)
    requires ns !in Namespaces(cs)
    ensures InNamespace(cs, ns) == []
  {
    if cs != [] {
      var init := cs[..|cs| - 1];
      assert Namespaces(cs) == Namespaces(init) + [cs[|cs| - 1].namespace];
      InNamespaceNone(init, ns);
    }
  }

  lemma {:induction false} WithKeyNone(cs: seq<Command>, k: Value)
    requires k !in Keys(cs)
    ensures WithKey(cs, k) == []
  {
    if cs != [] {
      var init := cs[..|cs| - 1];
      assert Keys(cs) == Keys(init) + [Key(cs[|cs| - 1])];
      WithKeyNone(init, k);
    }
  }

  lemma {:induction false} InNamespaceHas(cs: seq<Command>, ns: string, c: Command)
    requires c in cs && c.namespace == ns
    ensures c in InNamespace(cs, ns)
  {
    var init, last := cs[..|cs| - 1], cs[|cs| - 1];
    if c != last {
      assert c in init by { assert cs == init + [last]; }
      InNamespaceHas(init, ns, c);
    }
  }

  /** Filtering a namespace's list by key is filtering all commands by both. */
  lemma {:induction false} WithKeyOfNamespace(cs: seq<Command>, ns: string, k: Value)
    ensures WithKey(InNamespace(cs, ns), k) == Matching(cs, ns, k)
  {
    if cs != [] {
      var init, last := cs[..|cs| - 1], cs[|cs| - 1];
      WithKeyOfNamespace(init, ns, k);
      if last.namespace == ns {
        var g := InNamespace(init, ns) + [last];
        assert InNamespace(cs, ns) == g;
        assert g[..|g| - 1] == InNamespace(init, ns) && g[|g| - 1] == last;
        assert WithKey(g, k) == WithKey(InNamespace(init, ns), k) + (if Key(last) == k then [last] else []);
      } else {
        assert InNamespace(cs, ns) == InNamespace(init, ns);
      }
    }
  }

  /** A command is among those sharing its own namespace and key. */
  lemma {:induction false} MatchingHas(cs: seq<Command>, i: nat)
    requires i < |cs|
    ensures |Matching(cs, cs[i].namespace, Key(cs[i]))| > 0
  {
    var init := cs[..|cs| - 1];
    if i < |cs| - 1 {
      MatchingHas(init, i);
      assert init[i] == cs[i];
    }
  }

  /** Some two commands share a namespace and a name key. */
  predicate Collide(cs: seq<Command>) {
    exists i, j :: 0 <= i < j < |cs| && cs[i].namespace == cs[j].namespace && Key(cs[i]) == Key(cs[j])
  }

  /** Two commands sharing namespace and key make a group of two or more. */
  lemma {:induction false} CollisionMatches(cs: seq<Command>, i: nat, j: nat)
    requires i < j < |cs| && cs[i].namespace == cs[j].namespace && Key(cs[i]) == Key(cs[j])
    ensures |Matching(cs, cs[i].namespace, Key(cs[i]))| > 1
  {
    var init := cs[..|cs| - 1];
    assert init[i] == cs[i];
    if j < |cs| - 1 {
      assert init[j] == cs[j];
      CollisionMatches(init, i, j);
    } else {
      MatchingHas(init, i);
    }
  }

  /** A group of two or more comes from two commands sharing namespace and key. */
  lemma {:induction false} MatchesCollide(cs: seq<Command>, ns: string, k: Value)
    requires |Matching(cs, ns, k)| > 1
    ensures Collide(cs)
  {
    var init, last := cs[..|cs| - 1], cs[|cs| - 1];
    var before := Matching(init, ns, k);
    if |before| > 1 {
      MatchesCollide(init, ns, k);
      var i, j :| 0 <= i < j < |init| && init[i].namespace == init[j].namespace && Key(init[i]) == Key(init[j]);
      assert cs[i] == init[i] && cs[j] == init[j];
    } else {
      var i :| 0 <= i < |init| && init[i] == before[0];
      assert cs[i] == init[i] && cs[|cs| - 1] == last;
    }
  }

  /* ---------------- the reported pairs ---------------- */

  lemma {:induction false} GroupsInMembers(cs: seq<Command>, ns: string, keys: seq<Value>, g: (string, Value))
    ensures g in GroupsIn(cs, ns, keys) <==> g.0 == ns && g.1 in keys && |Matching(cs, ns, g.1)| > 1
  {
    if keys != [] {
      var init := keys[..|keys| - 1];
      GroupsInMembers(cs, ns, init, g);
      assert keys == init + [keys[|keys| - 1]];
    }
  }

  lemma {:induction false} GroupsOverMembers(cs: seq<Command>, nss: seq<string>, g: (string, Value))
    ensures g in GroupsOver(cs, nss) <==>
              g.0 in nss && g.1 in Keys(InNamespace(cs, g.0)) && |Matching(cs, g.0, g.1)| > 1
  {
    if nss != [] {
      var init, ns := nss[..|nss| - 1], nss[|nss| - 1];
      GroupsOverMembers(cs, init, g);
      GroupsInMembers(cs, ns, Distinct(Keys(InNamespace(cs, ns))), g);
      assert nss == init + [ns];
    }
  }

  /**
   * A (namespace, key) pair is reported exactly when two or more commands
   * share that namespace and that key.
   */
  lemma DuplicateGroupsExactly(cs: seq<Command>)
    ensures forall g :: g in DuplicateGroups(cs) <==> |Matching(cs, g.0, g.1)| > 1
  {
    forall g ensures g in DuplicateGroups(cs) <==> |Matching(cs, g.0, g.1)| > 1 {
      GroupsOverMembers(cs, Distinct(Namespaces(cs)), g);
      var m := Matching(cs, g.0, g.1);
      if |m| > 1 {
        var c := m[0];
        InNamespaceHas(cs, g.0, c);
        var group := InNamespace(cs, g.0);
        var j :| 0 <= j < |group| && group[j] == c;
        assert Keys(group)[j] == g.1;
        var i :| 0 <= i < |cs| && cs[i] == c;
        assert Namespaces(cs)[i] == g.0;
      }
    }
  }

  /** No element occurs twice. */
  ghost predicate NoRepeats<T>(s: seq<T>) {
    forall i, j :: 0 <= i < j < |s| ==> s[i] != s[j]
  }

  lemma NoRepeatsAppend<T>(a: seq<T>, b: seq<T>)
    requires NoRepeats(a) && NoRepeats(b)
    requires forall i, j :: 0 <= i < |a| && 0 <= j < |b| ==> a[i] != b[j]
    ensures NoRepeats(a + b)
  {
    var s := a + b;
    forall i, j | 0 <= i < j < |s| ensures s[i] != s[j] {
      if j < |a| {
        assert s[i] == a[i] && s[j] == a[j];
      } else if i < |a| {
        assert s[i] == a[i] && s[j] == b[j - |a|];
      } else {
        assert s[i] == b[i - |a|] && s[j] == b[j - |a|];
      }
    }
  }

  lemma {:induction false} GroupsInDistinct(cs: seq<Command>, ns: string, keys: seq<Value>)
    requires NoRepeats(keys)
    ensures NoRepeats(GroupsIn(cs, ns, keys))
  {
    if keys != [] {
      var init, k := keys[..|keys| - 1], keys[|keys| - 1];
      GroupsInDistinct(cs, ns, init);
      assert k !in init;
      var now := if |Matching(cs, ns, k)| > 1 then [(ns, k)] else [];
      NoRepeatsAppend(GroupsIn(cs, ns, init), now);
    }
  }

  lemma {:induction false} GroupsOverDistinct(cs: seq<Command>, nss: seq<string>)
    requires NoRepeats(nss)
    ensures NoRepeats(GroupsOver(cs, nss))
  {
    if nss != [] {
      var init, ns := nss[..|nss| - 1], nss[|nss| - 1];
      GroupsOverDistinct(cs, init);
      var keys := Distinct(Keys(InNamespace(cs, ns)));
      GroupsInDistinct(cs, ns, keys);
      assert ns !in init;
      NoRepeatsAppend(GroupsOver(cs, init), GroupsIn(cs, ns, keys));
    }
  }

  /** No (namespace, key) pair is reported twice. */
  lemma DuplicateGroupsDistinct(cs: seq<Command>)
    ensures NoRepeats(DuplicateGroups(cs))
  {
    GroupsOverDistinct(cs, Distinct(Namespaces(cs)));
  }

  /* ---------------- the errors ---------------- */

  lemma DescribesAllAppend(cs: seq<Command>, es: seq<ValidationError>, gs: seq<(string, Value)>,
                           es': seq<ValidationError>, gs': seq<(string, Value)>)
    requires DescribesAll(cs, es, gs) && DescribesAll(cs, es', gs')
    ensures DescribesAll(cs, es + es', gs + gs')
  {
    PointwiseAppend((e, g) => Describes(cs, e, g), es, gs, es', gs');
  }

  /** A relation that holds position by position on two pairs of sequences holds on their concatenations. */
  lemma PointwiseAppend<A, B>(R: (A, B) -> bool, xs: seq<A>, ys: seq<B>, xs': seq<A>, ys': seq<B>)
    requires |xs| == |ys| && |xs'| == |ys'|
    requires forall i :: 0 <= i < |xs| ==> R(xs[i], ys[i])
    requires forall i :: 0 <= i < |xs'| ==> R(xs'[i], ys'[i])
    ensures forall i :: 0 <= i < |xs + xs'| ==> R((xs + xs')[i], (ys + ys')[i])
  {
    forall i | 0 <= i < |xs + xs'| ensures R((xs + xs')[i], (ys + ys')[i]) {
      if i >= |xs| {
        assert (xs + xs')[i] == xs'[i - |xs|] && (ys + ys')[i] == ys'[i - |xs|];
      }
    }
  }

  lemma {:induction false} KeyErrorsDescribe(cs: seq<Command>, ns: string, keys: seq<Value>)
    requires NamesHashable(cs)
    ensures DescribesAll(cs, KeyErrors(cs, ns, keys), GroupsIn(cs, ns, keys))
  {
    if keys != [] {
      var init, k := keys[..|keys| - 1], keys[|keys| - 1];
      KeyErrorsDescribe(cs, ns, init);
      var m := Matching(cs, ns, k);
      if |m| > 1 {
        assert Describes(cs, DuplicateError(ns, m), (ns, k));
        DescribesAllAppend(cs, KeyErrors(cs, ns, init), GroupsIn(cs, ns, init), [DuplicateError(ns, m)], [(ns, k)]);
      } else {
        assert KeyErrors(cs, ns, keys) == KeyErrors(cs, ns, init);
        assert GroupsIn(cs, ns, keys) == GroupsIn(cs, ns, init);
      }
    }
  }

  lemma {:induction false} NamespaceErrorsDescribe(cs: seq<Command>, nss: seq<string>)
    requires NamesHashable(cs)
    ensures DescribesAll(cs, NamespaceErrors(cs, nss), GroupsOver(cs, nss))
  {
    if nss != [] {
      var init, ns := nss[..|nss| - 1], nss[|nss| - 1];
      var keys := Distinct(Keys(InNamespace(cs, ns)));
      NamespaceErrorsDescribe(cs, init);
      KeyErrorsDescribe(cs, ns, keys);
      DescribesAllAppend(cs, NamespaceErrors(cs, init), GroupsOver(cs, init), KeyErrors(cs, ns, keys), GroupsIn(cs, ns, keys));
    }
  }

  /**
   * `check_duplicates` records one error per reported pair, in report order,
   * each about the field `name`, of severity error: it shows the name of the
   * first command of the group, the namespace ("root namespace" for ""), and
   * the source paths of all of the group's commands in input order.
   */
  lemma DuplicateErrorsDescribeGroups(cs: seq<Command>)
    requires NamesHashable(cs)
    ensures |DuplicateErrors(cs)| == |DuplicateGroups(cs)|
    ensures forall i :: 0 <= i < |DuplicateGroups(cs)| ==>
              var g := DuplicateGroups(cs)[i];
              var m := Matching(cs, g.0, g.1);
              && |m| > 1 && Hashable(m[0].name)
              && DuplicateErrors(cs)[i] == DuplicateError(g.0, m)
  {
    NamespaceErrorsDescribe(cs, Distinct(Namespaces(cs)));
  }

  /**
   * `check_duplicates` reports nothing exactly when no two commands share a
   * namespace and a name; so commands in different namespaces never
   * conflict, and an empty list is valid.
   */
  lemma NoErrorsIffNoCollision(cs: seq<Command>)
    requires NamesHashable(cs)
    ensures DuplicateErrors(cs) == [] <==> !Collide(cs)
  {
    DuplicateErrorsDescribeGroups(cs);
    DuplicateGroupsExactly(cs);
    if Collide(cs) {
      var i, j :| 0 <= i < j < |cs| && cs[i].namespace == cs[j].namespace && Key(cs[i]) == Key(cs[j]);
      CollisionMatches(cs, i, j);
      assert (cs[i].namespace, Key(cs[i])) in DuplicateGroups(cs);
    }
    if DuplicateGroups(cs) != [] {
      var g := DuplicateGroups(cs)[0];
      assert g in DuplicateGroups(cs);
      MatchesCollide(cs, g.0, g.1);
    }
  }

  /* ---------------- check_duplicates ---------------- */

  /**
   * `namespace_commands` after filing the commands `cs` in turn: a missing
   * namespace first gets an empty list, then the command is appended.
   */
  function NamespaceTable(cs: seq<Command>): map<string, seq<Command>> {
    if cs == [] then map[]
    else
      var table := NamespaceTable(cs[..|cs| - 1]);
      var c := cs[|cs| - 1];
      var ready := if c.namespace !in table then table[c.namespace := []] else table;
      ready[c.namespace := ready[c.namespace] + [c]]
  }

  /** `name_to_commands` after filing the commands `cs` in turn, by name key. */
  function NameTable(cs: seq<Command>): map<Value, seq<Command>> {
    if cs == [] then map[]
    else
      var table := NameTable(cs[..|cs| - 1]);
      var c := cs[|cs| - 1];
      var ready := if Key(c) !in table then table[Key(c) := []] else table;
      ready[Key(c) := ready[Key(c)] + [c]]
  }

  /** `namespace_commands` has an entry for each namespace present, holding its commands in order. */
  lemma {:induction false} NamespaceTableHolds(cs: seq<Command>, ns: string)
    ensures ns in NamespaceTable(cs) <==> ns in Namespaces(cs)
    ensures ns in NamespaceTable(cs) ==> NamespaceTable(cs)[ns] == InNamespace(cs, ns)
  {
    if cs != [] {
      var init := cs[..|cs| - 1];
      NamespaceTableHolds(init, ns);
      assert Namespaces(cs) == Namespaces(init) + [cs[|cs| - 1].namespace];
      if ns !in NamespaceTable(init) {
        InNamespaceNone(init, ns);
      }
    }
  }

  /** `name_to_commands` has an entry for each key present, holding its commands in order. */
  lemma {:induction false} NameTableHolds(cs: seq<Command>, k: Value)
    ensures k in NameTable(cs) <==> k in Keys(cs)
    ensures k in NameTable(cs) ==> NameTable(cs)[k] == WithKey(cs, k)
  {
    if cs != [] {
      var init := cs[..|cs| - 1];
      NameTableHolds(init, k);
      assert Keys(cs) == Keys(init) + [Key(cs[|cs| - 1])];
      if k !in NameTable(init) {
        WithKeyNone(init, k);
      }
    }
  }

  /** Filing command `cs[i]` after `cs[..i]`. */
  lemma NamespaceStep(cs: seq<Command>, i: nat)
    requires i < |cs|
    ensures Namespaces(cs[..i + 1]) == Namespaces(cs[..i]) + [cs[i].namespace]
    ensures var table := NamespaceTable(cs[..i]);
            var ns := cs[i].namespace;
            var ready := if ns !in table then table[ns := []] else table;
            NamespaceTable(cs[..i + 1]) == ready[ns := ready[ns] + [cs[i]]]
  {
    assert cs[..i + 1][..i] == cs[..i];
  }

  lemma NameStep(cs: seq<Command>, i: nat)
    requires i < |cs|
    ensures Keys(cs[..i + 1]) == Keys(cs[..i]) + [Key(cs[i])]
    ensures var table := NameTable(cs[..i]);
            var k := Key(cs[i]);
            var ready := if k !in table then table[k := []] else table;
            NameTable(cs[..i + 1]) == ready[k := ready[k] + [cs[i]]]
  {
    assert cs[..i + 1][..i] == cs[..i];
  }

  /** Reporting key `keys[i]` after the keys before it. */
  lemma KeyErrorsStep(cs: seq<Command>, ns: string, keys: seq<Value>, i: nat)
    requires NamesHashable(cs) && i < |keys|
    ensures var m := Matching(cs, ns, keys[i]);
            && (m != [] ==> Hashable(m[0].name))
            && KeyErrors(cs, ns, keys[..i + 1])
               == KeyErrors(cs, ns, keys[..i]) + (if |m| > 1 then [DuplicateError(ns, m)] else [])
  {
    assert keys[..i + 1][..i] == keys[..i];
    var m := Matching(cs, ns, keys[i]);
    if m != [] {
      assert m[0] in cs;
    }
  }

  /** Reporting namespace `nss[j]` after the namespaces before it. */
  lemma NamespaceErrorsStep(cs: seq<Command>, nss: seq<string>, j: nat)
    requires NamesHashable(cs) && j < |nss|
    ensures NamespaceErrors(cs, nss[..j + 1])
            == NamespaceErrors(cs, nss[..j]) + KeyErrors(cs, nss[j], Distinct(Keys(InNamespace(cs, nss[j]))))
  {
    assert nss[..j + 1][..j] == nss[..j];
  }

  /** Each key of the name table holds exactly the commands of the namespace that share it. */
  lemma NameTableMatches(cs: seq<Command>, namespace: string)
    ensures var group := InNamespace(cs, namespace);
            forall k :: k in Distinct(Keys(group)) ==>
              k in NameTable(group) && NameTable(group)[k] == Matching(cs, namespace, k)
  {
    var group := InNamespace(cs, namespace);
    forall k | k in Distinct(Keys(group))
      ensures k in NameTable(group) && NameTable(group)[k] == Matching(cs, namespace, k)
    {
      NameTableHolds(group, k);
      WithKeyOfNamespace(cs, namespace, k);
    }
  }

  /** `check_duplicates`. */
  method CheckDuplicates(commands: seq<Command>) returns (result: ValidationResult)
    requires NamesHashable(commands)
    ensures fresh(result)
    ensures result.errors == DuplicateErrors(commands) && result.warnings == []
  {
    result := new ValidationResult();
    var byNamespace, namespaces := FileByNamespace(commands);
    for j := 0 to |namespaces|
      invariant result.errors == NamespaceErrors(commands, namespaces[..j])
      invariant result.warnings == []
    {
      var namespace := namespaces[j];
      NamespaceTableHolds(commands, namespace);
      var nsCommands := byNamespace[namespace];
      ReportNamespace(result, commands, namespace, nsCommands);
      NamespaceErrorsStep(commands, namespaces, j);
    }
    assert namespaces[..|namespaces|] == namespaces;
  }

  /** The first loop of `check_duplicates`: `namespace_commands` and its keys in insertion order. */
  method FileByNamespace(commands: seq<Command>) returns (byNamespace: map<string, seq<Command>>, namespaces: seq<string>)
    ensures byNamespace == NamespaceTable(commands)
    ensures namespaces == Distinct(Namespaces(commands))
  {
    byNamespace := map[];
    namespaces := [];
    for i := 0 to |commands|
      invariant byNamespace == NamespaceTable(commands[..i])
      invariant namespaces == Distinct(Namespaces(commands[..i]))
    {
      var command := commands[i];
      var ns := command.namespace;
      NamespaceStep(commands, i);
      NamespaceTableHolds(commands[..i], ns);
      DistinctSnoc(Namespaces(commands[..i]), ns);
      if ns !in byNamespace {
        namespaces := namespaces + [ns];
        byNamespace := byNamespace[ns := []];
      }
      byNamespace := byNamespace[ns := byNamespace[ns] + [command]];
    }
    assert commands[..|commands|] == commands;
  }

  /**
   * The body of the outer loop of `check_duplicates` for one namespace:
   * `name_to_commands` is built, then each key held by more than one
   * command is reported.
   */
  method ReportNamespace(result: ValidationResult, cs: seq<Command>, namespace: string, nsCommands: seq<Command>)
    requires NamesHashable(cs)
    requires nsCommands == InNamespace(cs, namespace)
    modifies result
    ensures result.errors == old(result.errors) + KeyErrors(cs, namespace, Distinct(Keys(nsCommands)))
    ensures result.warnings == old(result.warnings)
  {
    var byName, names := FileByName(nsCommands);
    NameTableMatches(cs, namespace);
    ReportNames(result, cs, namespace, byName, names);
  }

  /** The inner filing loop of `check_duplicates`: `name_to_commands` and its keys in insertion order. */
  method FileByName(nsCommands: seq<Command>) returns (byName: map<Value, seq<Command>>, names: seq<Value>)
    ensures byName == NameTable(nsCommands)
    ensures names == Distinct(Keys(nsCommands))
  {
    byName := map[];
    names := [];
    for k := 0 to |nsCommands|
      invariant byName == NameTable(nsCommands[..k])
      invariant names == Distinct(Keys(nsCommands[..k]))
    {
      var command := nsCommands[k];
      var name := Key(command);
      NameStep(nsCommands, k);
      NameTableHolds(nsCommands[..k], name);
      DistinctSnoc(Keys(nsCommands[..k]), name);
      if name !in byName {
        names := names + [name];
        byName := byName[name := []];
      }
      byName := byName[name := byName[name] + [command]];
    }
    assert nsCommands[..|nsCommands|] == nsCommands;
  }

  /** The report loop of `check_duplicates` over the keys of `name_to_commands`. */
  method ReportNames(result: ValidationResult, cs: seq<Command>, namespace: string,
                     byName: map<Value, seq<Command>>, names: seq<Value>)
    requires NamesHashable(cs)
    requires forall k :: k in names ==> k in byName && byName[k] == Matching(cs, namespace, k)
    modifies result
    ensures result.errors == old(result.errors) + KeyErrors(cs, namespace, names)
    ensures result.warnings == old(result.warnings)
  {
    for k := 0 to |names|
      invariant result.errors == old(result.errors) + KeyErrors(cs, namespace, names[..k])
      invariant result.warnings == old(result.warnings)
    {
      var name := names[k];
      var cmds := byName[name];
      KeyErrorsStep(cs, namespace, names, k);
      if |cmds| > 1 {
        result.AddError(DuplicateMessage(namespace, cmds), Some("name"), None);
      }
    }
    assert names[..|names|] == names;
  }
}
