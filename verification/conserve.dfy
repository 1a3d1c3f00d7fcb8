/** What stitching keeps: every amount of the input rows reaches exactly one
    booking, in order, and every text of a row that is not skipped reaches the
    booking of its group, in order. */
module Conservation {
  import opened Wrappers
  import opened Strings
  import opened StatementModel
  import opened Stitching

  /** The amounts of the rows that carry one, in row order. */
  function Amounts(lines: seq<StatementLine>): seq<real> {
    if |lines| == 0 then []
    else
      var last := lines[|lines| - 1];
      Amounts(lines[..|lines| - 1]) + (if last.amount.Some? then [last.amount.value] else [])
  }

  /** The texts of every group, group after group. */
  function GroupTexts(groups: seq<seq<StatementLine>>): seq<string> {
    if |groups| == 0 then [] else GroupTexts(groups[..|groups| - 1]) + Texts(groups[|groups| - 1])
  }

  /** The amounts of every group, group after group. */
  function GroupAmounts(groups: seq<seq<StatementLine>>): seq<real> {
    if |groups| == 0 then [] else GroupAmounts(groups[..|groups| - 1]) + Amounts(groups[|groups| - 1])
  }

  lemma {:induction false} AmountsLength(lines: seq<StatementLine>)
    ensures |Amounts(lines)| == AmountCount(lines)
  {
    if |lines| > 0 {
      AmountsLength(lines[..|lines| - 1]);
    }
  }

  lemma {:induction false} AmountsAppend(a: seq<StatementLine>, b: seq<StatementLine>)
    ensures Amounts(a + b) == Amounts(a) + Amounts(b)
  {
    if |b| == 0 {
      assert a + b == a;
    } else {
      var b' := b[..|b| - 1];
      assert (a + b)[..|a + b| - 1] == a + b';
      AmountsAppend(a, b');
    }
  }

  lemma {:induction false} TextsAppend(a: seq<StatementLine>, b: seq<StatementLine>)
    ensures Texts(a + b) == Texts(a) + Texts(b)
  {
    if |b| == 0 {
      assert a + b == a;
    } else {
      var b' := b[..|b| - 1];
      assert (a + b)[..|a + b| - 1] == a + b';
      TextsAppend(a, b');
    }
  }

  /** A skipped row has no amount, so skipping loses none. */
  lemma {:induction false} NonEmptyAmounts(lines: seq<StatementLine>)
    ensures Amounts(NonEmptyLines(lines)) == Amounts(lines)
  {
    if |lines| > 0 {
      var prefix := lines[..|lines| - 1];
      var b := lines[|lines| - 1];
      NonEmptyAmounts(prefix);
      AmountsAppend(NonEmptyLines(prefix), if b.IsEmpty() then [] else [b]);
      assert Amounts([b]) == (if b.amount.Some? then [b.amount.value] else []) by {
        assert [b][..0] == [];
      }
    }
  }

  lemma {:induction false} FlattenAmounts(groups: seq<seq<StatementLine>>)
    ensures Amounts(Flatten(groups)) == GroupAmounts(groups)
  {
    if |groups| > 0 {
      FlattenAmounts(groups[..|groups| - 1]);
      AmountsAppend(Flatten(groups[..|groups| - 1]), groups[|groups| - 1]);
    }
  }

  lemma {:induction false} FlattenTexts(groups: seq<seq<StatementLine>>)
    ensures Texts(Flatten(groups)) == GroupTexts(groups)
  {
    if |groups| > 0 {
      FlattenTexts(groups[..|groups| - 1]);
      TextsAppend(Flatten(groups[..|groups| - 1]), groups[|groups| - 1]);
    }
  }

  /** A group with at most one amount hands that amount, and only it, to its
      booking. */
  lemma {:induction false} MergeAmount(g: seq<StatementLine>)
    requires |g| > 0 && AmountCount(g) <= 1
    ensures Amounts([Merge(g)]) == Amounts(g)
  {
    assert [Merge(g)][..0] == [];
    GroupAmount(g);
  }

  lemma {:induction false} GroupAmount(g: seq<StatementLine>)
    requires AmountCount(g) <= 1
    ensures Amounts(g) == (if LastAmount(g).Some? then [LastAmount(g).value] else [])
  {
    if |g| > 0 {
      var prefix := g[..|g| - 1];
      if g[|g| - 1].amount.Some? {
        AmountsLength(prefix);
      } else {
        GroupAmount(prefix);
      }
    }
  }

  lemma {:induction false} MergeAllAmounts(groups: seq<seq<StatementLine>>)
    requires GroupsAreNonEmpty(groups) && SingleAmounts(groups)
    ensures Amounts(MergeAll(groups)) == GroupAmounts(groups)
  {
    if |groups| > 0 {
      var prefix := groups[..|groups| - 1];
      var g := groups[|groups| - 1];
      assert GroupsAreNonEmpty(prefix) && SingleAmounts(prefix) by {
        assert forall i :: 0 <= i < |prefix| ==> prefix[i] == groups[i];
      }
      MergeAllAmounts(prefix);
      AmountsAppend(MergeAll(prefix), [Merge(g)]);
      MergeAmount(g);
    }
  }

  /** Stitching loses and invents no amount: the bookings carry exactly the
      amounts of the input rows, in the same order. */
  lemma CombinedAmounts(lines: seq<StatementLine>)
    ensures CombineStatementLines(lines).Success? ==>
      Amounts(CombineStatementLines(lines).value) == Amounts(lines)
  {
    CombineStatementLinesMeaning(lines);
    if CombineStatementLines(lines).Success? {
      GroupsPartition(lines);
      MergeAllAmounts(Groups(lines));
      FlattenAmounts(Groups(lines));
      NonEmptyAmounts(lines);
    }
  }

  /** The texts the bookings join are those of the rows that are not
      skipped, in the same order; only the texts of skipped rows (absent or
      all whitespace) are dropped. */
  lemma CombinedTexts(lines: seq<StatementLine>)
    ensures CombineStatementLines(lines).Success? ==>
      && |CombineStatementLines(lines).value| == |Groups(lines)|
      && (forall i :: 0 <= i < |Groups(lines)| ==>
            CombineStatementLines(lines).value[i].text ==
              (if |Texts(Groups(lines)[i])| == 0 then None else Some(Join(Texts(Groups(lines)[i]), '\n'))))
      && GroupTexts(Groups(lines)) == Texts(NonEmptyLines(lines))
  {
    CombineStatementLinesMeaning(lines);
    if CombineStatementLines(lines).Success? {
      GroupsPartition(lines);
      FlattenTexts(Groups(lines));
      MergeAllAt(Groups(lines));
    }
  }

  lemma {:induction false} MergeAllAt(groups: seq<seq<StatementLine>>)
    requires GroupsAreNonEmpty(groups)
    ensures forall i :: 0 <= i < |groups| ==> MergeAll(groups)[i] == Merge(groups[i])
  {
    if |groups| > 0 {
      var prefix := groups[..|groups| - 1];
      assert forall i :: 0 <= i < |prefix| ==> prefix[i] == groups[i];
      MergeAllAt(prefix);
    }
  }
}
