/** Alias lists: first occurrences kept, empty names dropped, the primary filtered out. */
module AliasLists {
  predicate Distinct(values: seq<string>) {
    forall i, j | 0 <= i < j < |values| :: values[i] != values[j]
  }

  ghost function Elements(values: seq<string>): set<string> {
    set v | v in values
  }

  /** The first occurrence of every non-empty value, in order. */
  function Unique(values: seq<string>): (r: seq<string>)
    ensures Distinct(r)
    ensures forall v :: v in r <==> v in values && v != ""
  {
    if values == [] then []
    else
      var last := values[|values| - 1];
      var front := values[..|values| - 1];
      assert values == front + [last];
      if last == "" || last in Unique(front) then Unique(front) else Unique(front) + [last]
  }

  function Without(primary: string, aliases: seq<string>): (r: seq<string>)
    ensures forall v :: v in r <==> v in aliases && v != primary
  {
    if aliases == [] then []
    else
      var last := aliases[|aliases| - 1];
      var front := aliases[..|aliases| - 1];
      assert aliases == front + [last];
      if last == primary then Without(primary, front) else Without(primary, front) + [last]
  }

  method AppendUnique(values: seq<string>, additions: seq<string>) returns (result: seq<string>)
    ensures result == Unique(values + additions)
  {
    var seen: set<string> := {};
    result := [];
    var all := values + additions;
    var i := 0;
    while i < |all|
      invariant 0 <= i <= |all|
      invariant result == Unique(all[..i])
      invariant forall v :: v in seen <==> v in result
    {
      assert all[..i + 1][..i] == all[..i];
      if all[i] != "" && all[i] !in seen {
        seen := seen + {all[i]};
        result := result + [all[i]];
      }
      i := i + 1;
    }
    assert all[..i] == all;
  }

  method AliasesWithoutPrimary(primary: string, aliases: seq<string>) returns (result: seq<string>)
    ensures result == Without(primary, aliases)
  {
    result := [];
    var i := 0;
    while i < |aliases|
      invariant 0 <= i <= |aliases|
      invariant result == Without(primary, aliases[..i])
    {
      assert aliases[..i + 1][..i] == aliases[..i];
      if aliases[i] != primary {
        result := result + [aliases[i]];
      }
      i := i + 1;
    }
    assert aliases[..i] == aliases;
  }

  lemma {:induction false} UniqueOfDistinct(values: seq<string>)
    requires Distinct(values) && "" !in values
    ensures Unique(values) == values
  {
    if values == [] {
    } else {
      UniqueOfDistinct(values[..|values| - 1]);
    }
  }

  /** Values already present, or empty, add nothing. */
  lemma {:induction false} UniqueAbsorbs(a: seq<string>, b: seq<string>)
    requires forall v | v in b :: v == "" || v in a
    ensures Unique(a + b) == Unique(a)
  {
    if b == [] {
      assert a + b == a;
    } else {
      var front := b[..|b| - 1];
      assert (a + b)[..|a + b| - 1] == a + front;
      assert b[|b| - 1] in b;
      UniqueAbsorbs(a, front);
    }
  }

  lemma {:induction false} UniqueOfUnique(a: seq<string>, b: seq<string>)
    ensures Unique(Unique(a) + b) == Unique(a + b)
  {
    if b == [] {
      assert Unique(a) + b == Unique(a) && a + b == a;
      UniqueOfDistinct(Unique(a));
    } else {
      var front := b[..|b| - 1];
      assert (Unique(a) + b)[..|Unique(a) + b| - 1] == Unique(a) + front;
      assert (a + b)[..|a + b| - 1] == a + front;
      UniqueOfUnique(a, front);
    }
  }

  lemma {:induction false} UniqueReabsorbs(a: seq<string>, b: seq<string>)
    ensures Unique(a + Unique(a + b)) == Unique(a + b)
  {
    if b == [] {
      assert a + b == a;
      UniqueAbsorbs(a, Unique(a));
    } else {
      var front, last := b[..|b| - 1], b[|b| - 1];
      assert (a + b)[..|a + b| - 1] == a + front;
      UniqueReabsorbs(a, front);
      if last != "" && last !in Unique(a + front) {
        var grown := a + (Unique(a + front) + [last]);
        assert grown[..|grown| - 1] == a + Unique(a + front);
      }
    }
  }

  lemma {:induction false} WithoutConcat(primary: string, a: seq<string>, b: seq<string>)
    ensures Without(primary, a + b) == Without(primary, a) + Without(primary, b)
  {
    if b == [] {
      assert a + b == a;
    } else {
      var front := b[..|b| - 1];
      assert (a + b)[..|a + b| - 1] == a + front;
      WithoutConcat(primary, a, front);
    }
  }

  lemma {:induction false} WithoutAbsent(primary: string, a: seq<string>)
    requires primary !in a
    ensures Without(primary, a) == a
  {
    if a == [] {
    } else {
      WithoutAbsent(primary, a[..|a| - 1]);
    }
  }

  lemma {:induction false} WithoutUnique(primary: string, a: seq<string>)
    ensures Without(primary, Unique(a)) == Unique(Without(primary, a))
  {
    if a == [] {
    } else {
      var front, last := a[..|a| - 1], a[|a| - 1];
      WithoutUnique(primary, front);
      if last != "" && last !in Unique(front) {
        WithoutConcat(primary, Unique(front), [last]);
        assert Without(primary, [last]) == if last == primary then [] else [last];
      }
      if last != primary {
        var kept := Without(primary, front) + [last];
        assert kept[..|kept| - 1] == Without(primary, front);
      }
    }
  }

  /** The alias list of a row that absorbed another one: own aliases first, then the other's names. */
  function MergedAliases(primary: string, own: seq<string>, otherID: string, other: seq<string>): (r: seq<string>)
    ensures Distinct(r) && "" !in r && primary !in r
    ensures forall v :: v in r <==> v != "" && v != primary && (v in own || v == otherID || v in other)
  {
    WithoutUnique(primary, Unique(own + [otherID]) + other);
    Without(primary, Unique(Unique(own + [otherID]) + other))
  }

  /** The names of the merged row are the names of the two rows. */
  lemma MergedAliasesNames(primary: string, own: seq<string>, otherID: string, other: seq<string>)
    ensures Elements([primary] + MergedAliases(primary, own, otherID, other)) - {""}
            == (Elements([primary] + own) - {""}) + (Elements([otherID] + other) - {""})
  {
  }

  lemma MergedAliasesFlat(primary: string, own: seq<string>, otherID: string, other: seq<string>)
    ensures MergedAliases(primary, own, otherID, other)
            == Unique(Without(primary, own) + Without(primary, [otherID] + other))
  {
    UniqueOfUnique(own + [otherID], other);
    assert own + [otherID] + other == own + ([otherID] + other);
    WithoutUnique(primary, own + ([otherID] + other));
    WithoutConcat(primary, own, [otherID] + other);
  }

  /** Absorbing the row that results from an absorption changes nothing. */
  lemma MergedAliasesStable(primary: string, own: seq<string>, otherID: string, other: seq<string>)
    ensures MergedAliases(primary, own, primary, MergedAliases(primary, own, otherID, other))
            == MergedAliases(primary, own, otherID, other)
  {
    var first := MergedAliases(primary, own, otherID, other);
    MergedAliasesFlat(primary, own, otherID, other);
    MergedAliasesFlat(primary, own, primary, first);
    WithoutConcat(primary, [primary], first);
    WithoutAbsent(primary, first);
    assert Without(primary, [primary]) == [];
    assert [] + first == first;
    UniqueReabsorbs(Without(primary, own), Without(primary, [otherID] + other));
  }

  /** A list that filtering and deduplication leave alone. */
  predicate Clean(primary: string, aliases: seq<string>) {
    Distinct(aliases) && "" !in aliases && primary !in aliases
  }

  lemma {:induction false} UniqueIsPrefix(a: seq<string>, b: seq<string>)
    ensures Unique(a) <= Unique(a + b)
  {
    if b == [] {
      assert a + b == a;
    } else {
      var front := b[..|b| - 1];
      assert (a + b)[..|a + b| - 1] == a + front;
      UniqueIsPrefix(a, front);
    }
  }

  lemma UniqueKeepsIff(lead: seq<string>, kept: seq<string>)
    requires Distinct(kept) && "" !in kept
    ensures Unique(lead + kept) == kept <==> Unique(lead) <= kept
  {
    hide Unique;
    UniqueIsPrefix(lead, kept);
    if Unique(lead) <= kept {
      var tail := kept[|Unique(lead)|..];
      assert Unique(lead) + tail == kept;
      UniqueOfDistinct(kept);
      UniqueReabsorbs(Unique(lead), tail);
      UniqueOfUnique(lead, kept);
    }
  }

  /** A list survives a further absorption exactly when it is clean and starts with the absorber's own names. */
  lemma MergedAliasesKeptIff(primary: string, own: seq<string>, kept: seq<string>)
    ensures MergedAliases(primary, own, primary, kept) == kept
            <==> Clean(primary, kept) && Unique(Without(primary, own)) <= kept
  {
    hide MergedAliases, Unique, Without, Distinct;
    if Clean(primary, kept) {
      MergedAliasesFlat(primary, own, primary, kept);
      WithoutConcat(primary, [primary], kept);
      WithoutAbsent(primary, kept);
      WithoutItself(primary);
      assert [] + kept == kept;
      UniqueKeepsIff(Without(primary, own), kept);
    }
  }

  lemma WithoutItself(primary: string)
    ensures Without(primary, [primary]) == []
  {
  }

  /** A row absorbing itself keeps its alias list exactly when the list is clean. */
  lemma MergedAliasesSelf(primary: string, own: seq<string>)
    ensures MergedAliases(primary, own, primary, own) == own <==> Clean(primary, own)
  {
    MergedAliasesFlat(primary, own, primary, own);
    if Clean(primary, own) {
      WithoutAbsent(primary, own);
      WithoutConcat(primary, [primary], own);
      assert Without(primary, [primary]) == [];
      assert [] + own == own;
      UniqueAbsorbs(own, own);
      UniqueOfDistinct(own);
    }
  }
}
