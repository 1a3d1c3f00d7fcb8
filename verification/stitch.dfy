/** Stitching page rows into bookings. A booking on the page spans several
    rows: it starts at a row with a booking date and ends at a row with a
    value date, and its text is spread over the rows in between. */
module Stitching {
  import opened Wrappers
  import opened Strings
  import opened StatementModel

  /** The fold's state: the bookings finished so far and the one being built. */
  datatype Stitch = Stitch(done: seq<StatementLine>, current: StatementLine)

  /** `next_line()`: a non-empty booking under construction is finished. */
  function Flush(s: Stitch): Stitch {
    if s.current.IsEmpty() then s else Stitch(s.done + [s.current], EmptyLine)
  }

  /** The text so far with one more row of text below it. */
  function AppendText(text: Option<string>, more: string): string {
    if text.None? then more else text.value + "\n" + more
  }

  /** One row folded into the state. A booking date first finishes the
      booking under construction; text is appended; a second amount or value
      date in one booking is an error; a value date finishes the booking. */
  function Absorb(s: Stitch, line: StatementLine): Result<Stitch, ParseError> {
    if line.IsEmpty() then Success(s)
    else
      var s1 := if line.bookingDate.Some? then
          var f := Flush(s); Stitch(f.done, f.current.(bookingDate := line.bookingDate))
        else s;
      var c1 := s1.current;
      var c2 := if line.text.Some? then c1.(text := Some(AppendText(c1.text, line.text.value))) else c1;
      if line.amount.Some? && c2.amount.Some? then Failure(MultipleAmounts)
      else
        var c3 := if line.amount.Some? then c2.(amount := line.amount) else c2;
        if line.valueDate.Some? then
          if c3.valueDate.Some? then Failure(MultipleValueDates)
          else Success(Flush(Stitch(s1.done, c3.(valueDate := line.valueDate))))
        else Success(Stitch(s1.done, c3))
  }

  /** The rows folded first to last from an empty state. */
  function StitchAll(lines: seq<StatementLine>): Result<Stitch, ParseError> {
    if |lines| == 0 then Success(Stitch([], EmptyLine))
    else
      var s :- StitchAll(lines[..|lines| - 1]);
      Absorb(s, lines[|lines| - 1])
  }

  /** `combine_statement_lines`: the fold, then the last booking finished. */
  function CombineStatementLines(lines: seq<StatementLine>): Result<seq<StatementLine>, ParseError> {
    var s :- StitchAll(lines);
    Success(Flush(s).done)
  }

  // ---------------------------------------------------------------------
  // Reference: bookings as groups of consecutive non-empty rows

  /** A group is closed once its last row carries a value date. */
  predicate Closed(g: seq<StatementLine>) {
    |g| > 0 && g[|g| - 1].valueDate.Some?
  }

  /** The non-empty rows cut into groups: a new group starts at the first
      row, at every row with a booking date, and after every closed group. */
  function Groups(lines: seq<StatementLine>): seq<seq<StatementLine>> {
    if |lines| == 0 then [] else NextGroups(Groups(lines[..|lines| - 1]), lines[|lines| - 1])
  }

  /** Whether row `b` starts a new group after `groups`. */
  predicate StartsGroup(groups: seq<seq<StatementLine>>, b: StatementLine) {
    |groups| == 0 || b.bookingDate.Some? || Closed(groups[|groups| - 1])
  }

  /** The groups with one more row below them. */
  function NextGroups(groups: seq<seq<StatementLine>>, b: StatementLine): seq<seq<StatementLine>> {
    if b.IsEmpty() then groups
    else if StartsGroup(groups, b) then groups + [[b]]
    else groups[..|groups| - 1] + [groups[|groups| - 1] + [b]]
  }

  /** The texts of a group's rows, top to bottom, rows without text skipped. */
  function Texts(g: seq<StatementLine>): seq<string> {
    if |g| == 0 then []
    else
      var last := g[|g| - 1];
      Texts(g[..|g| - 1]) + (if last.text.Some? then [last.text.value] else [])
  }

  function AmountCount(g: seq<StatementLine>): nat {
    if |g| == 0 then 0 else AmountCount(g[..|g| - 1]) + (if g[|g| - 1].amount.Some? then 1 else 0)
  }

  /** The amount of the group's last row that has one. */
  function LastAmount(g: seq<StatementLine>): Option<real> {
    if |g| == 0 then None
    else if g[|g| - 1].amount.Some? then g[|g| - 1].amount
    else LastAmount(g[..|g| - 1])
  }

  /** A group as one booking: booking date of its first row, value date of
      its last, its texts joined by line breaks, and its amount. */
  function Merge(g: seq<StatementLine>): StatementLine
    requires |g| > 0
  {
    StatementLine(
      if |Texts(g)| == 0 then None else Some(Join(Texts(g), '\n')),
      LastAmount(g),
      g[0].bookingDate,
      g[|g| - 1].valueDate)
  }

  function MergeAll(groups: seq<seq<StatementLine>>): (r: seq<StatementLine>)
    requires forall i :: 0 <= i < |groups| ==> |groups[i]| > 0
    ensures |r| == |groups|
  {
    if |groups| == 0 then [] else MergeAll(groups[..|groups| - 1]) + [Merge(groups[|groups| - 1])]
  }

  /** No group holds two amounts. */
  predicate SingleAmounts(groups: seq<seq<StatementLine>>) {
    forall i :: 0 <= i < |groups| ==> AmountCount(groups[i]) <= 1
  }

  /** The shape of one group: no empty row, a booking date only on its first
      row, a value date only on its last. */
  predicate GroupShape(g: seq<StatementLine>) {
    && |g| > 0
    && (forall j :: 0 <= j < |g| ==> !g[j].IsEmpty())
    && (forall j :: 0 < j < |g| ==> g[j].bookingDate.None?)
    && (forall j :: 0 <= j < |g| - 1 ==> g[j].valueDate.None?)
  }

  predicate Shaped(groups: seq<seq<StatementLine>>) {
    forall i :: 0 <= i < |groups| ==> GroupShape(groups[i])
  }

  /** Consecutive groups are separated by a cut: the later one starts with a
      booking date or the earlier one is closed. */
  predicate Cut(groups: seq<seq<StatementLine>>) {
    forall i :: 0 < i < |groups| ==> |groups[i]| > 0 && (groups[i][0].bookingDate.Some? || Closed(groups[i - 1]))
  }

  function Flatten(groups: seq<seq<StatementLine>>): seq<StatementLine> {
    if |groups| == 0 then [] else Flatten(groups[..|groups| - 1]) + groups[|groups| - 1]
  }

  /** The rows `is_empty` does not skip. */
  function NonEmptyLines(lines: seq<StatementLine>): seq<StatementLine> {
    if |lines| == 0 then []
    else NonEmptyLines(lines[..|lines| - 1]) + (if lines[|lines| - 1].IsEmpty() then [] else [lines[|lines| - 1]])
  }

  // ---------------------------------------------------------------------
  // The groups are a partition of the non-empty rows at the cuts

  /** Every group has the booking shape, groups meet only at cuts, and
      together they are the non-empty rows in their original order. */
  lemma {:induction false} GroupsPartition(lines: seq<StatementLine>)
    ensures Shaped(Groups(lines))
    ensures Cut(Groups(lines))
    ensures Flatten(Groups(lines)) == NonEmptyLines(lines)
  {
    if |lines| > 0 {
      var prefix := lines[..|lines| - 1];
      var b := lines[|lines| - 1];
      var groups := Groups(prefix);
      GroupsPartition(prefix);
      if !b.IsEmpty() {
        if StartsGroup(groups, b) {
          NewGroup(groups, b);
        } else {
          JoinGroup(groups, b);
        }
      }
    }
  }

  lemma NewGroup(groups: seq<seq<StatementLine>>, b: StatementLine)
    requires Shaped(groups) && Cut(groups) && !b.IsEmpty()
    requires StartsGroup(groups, b)
    ensures Shaped(groups + [[b]]) && Cut(groups + [[b]])
    ensures Flatten(groups + [[b]]) == Flatten(groups) + [b]
  {
    var next := groups + [[b]];
    assert next[..|groups|] == groups;
    Shape1(b);
    forall i | 0 <= i < |next| ensures GroupShape(next[i]) {
      if i < |groups| {
        assert next[i] == groups[i];
      }
    }
    forall i | 0 < i < |next| ensures |next[i]| > 0 && (next[i][0].bookingDate.Some? || Closed(next[i - 1])) {
      assert next[i - 1] == groups[i - 1];
      if i < |groups| {
        assert next[i] == groups[i];
      }
    }
  }

  lemma JoinGroup(groups: seq<seq<StatementLine>>, b: StatementLine)
    requires Shaped(groups) && Cut(groups) && !b.IsEmpty() && !StartsGroup(groups, b)
    ensures var joined := groups[..|groups| - 1] + [groups[|groups| - 1] + [b]];
      Shaped(joined) && Cut(joined) && Flatten(joined) == Flatten(groups) + [b]
  {
    var n := |groups|;
    var g := groups[n - 1];
    ShapeSnoc(g, b);
    ShapedReplaceLast(groups, g + [b]);
    CutReplaceLast(groups, g + [b]);
    var joined := groups[..n - 1] + [g + [b]];
    assert joined[..n - 1] == groups[..n - 1];
    assert groups == groups[..n - 1] + [g];
    assert Flatten(groups) == Flatten(groups[..n - 1]) + g;
  }

  /** A row without a booking date below an open group keeps its shape. */
  lemma ShapeSnoc(g: seq<StatementLine>, b: StatementLine)
    requires GroupShape(g) && !Closed(g) && !b.IsEmpty() && b.bookingDate.None?
    ensures GroupShape(g + [b])
  {
    var gb := g + [b];
    forall j | 0 <= j < |gb| - 1 ensures gb[j].valueDate.None? && !gb[j].IsEmpty() {
      assert gb[j] == g[j];
    }
    forall j | 0 < j < |gb| ensures gb[j].bookingDate.None? {
      if j < |g| {
        assert gb[j] == g[j];
      }
    }
  }

  lemma ShapedReplaceLast(groups: seq<seq<StatementLine>>, g: seq<StatementLine>)
    requires |groups| > 0 && Shaped(groups) && GroupShape(g)
    ensures Shaped(groups[..|groups| - 1] + [g])
  {
    var next := groups[..|groups| - 1] + [g];
    forall i | 0 <= i < |next| ensures GroupShape(next[i]) {
      if i < |groups| - 1 {
        assert next[i] == groups[i];
      }
    }
  }

  lemma CutReplaceLast(groups: seq<seq<StatementLine>>, g: seq<StatementLine>)
    requires |groups| > 0 && Cut(groups) && |g| > 0 && |groups[|groups| - 1]| > 0
    requires g[0] == groups[|groups| - 1][0]
    ensures Cut(groups[..|groups| - 1] + [g])
  {
    var n := |groups|;
    var next: seq<seq<StatementLine>> := groups[..n - 1] + [g];
    forall i | 0 < i < n ensures |next[i]| > 0 && (next[i][0].bookingDate.Some? || Closed(next[i - 1])) {
      assert next[i - 1] == groups[i - 1];
      if i < n - 1 {
        assert next[i] == groups[i];
      }
    }
  }

  // ---------------------------------------------------------------------
  // Merging

  /** A group of one row is that row. */
  lemma MergeSingle(b: StatementLine)
    ensures Merge([b]) == b
  {
    assert [b][..0] == [];
    assert LastAmount([b]) == b.amount;
    if b.text.Some? {
      assert Texts([b]) == [b.text.value];
      assert Join([b.text.value], '\n') == b.text.value;
    } else {
      assert Texts([b]) == [];
    }
  }

  /** One more row below a group adds its text, its amount and its value date. */
  lemma MergeSnoc(g: seq<StatementLine>, b: StatementLine)
    requires |g| > 0
    ensures Merge(g + [b]) == Merge(g).(
      text := if b.text.Some? then Some(AppendText(Merge(g).text, b.text.value)) else Merge(g).text,
      amount := if b.amount.Some? then b.amount else Merge(g).amount,
      valueDate := b.valueDate)
  {
    var gb := g + [b];
    assert gb[..|g|] == g && gb[0] == g[0] && gb[|gb| - 1] == b;
    assert LastAmount(gb) == if b.amount.Some? then b.amount else LastAmount(g);
    if b.text.Some? {
      assert Texts(gb) == Texts(g) + [b.text.value];
      if |Texts(g)| > 0 {
        JoinSnoc(Texts(g), b.text.value, '\n');
      } else {
        assert Texts(gb) == [b.text.value];
        assert Join([b.text.value], '\n') == b.text.value;
      }
    } else {
      assert Texts(gb) == Texts(g);
    }
  }

  lemma {:induction false} LastAmountCount(g: seq<StatementLine>)
    ensures LastAmount(g).Some? <==> AmountCount(g) > 0
  {
    if |g| > 0 {
      LastAmountCount(g[..|g| - 1]);
    }
  }

  /** A group's first text is its first row's, when that row has one. */
  lemma {:induction false} TextsHead(g: seq<StatementLine>)
    requires |g| > 0 && g[0].text.Some?
    ensures |Texts(g)| > 0 && Texts(g)[0] == g[0].text.value
  {
    if |g| > 1 {
      var p := g[..|g| - 1];
      assert p[0] == g[0];
      TextsHead(p);
    } else {
      assert g[..0] == [];
    }
  }

  /** A well-shaped group never merges to an empty booking. */
  lemma MergeNotEmpty(g: seq<StatementLine>)
    requires GroupShape(g)
    ensures !Merge(g).IsEmpty()
  {
    LastAmountCount(g);
    if g[0].bookingDate.None? && g[|g| - 1].valueDate.None? && LastAmount(g).None? {
      AmountsAbsent(g);
      assert !g[0].IsEmpty();
      TextsHead(g);
      var t := Texts(g);
      JoinBlank(t, '\n');
      assert !IsBlank(t[0]);
    }
  }

  lemma {:induction false} AmountsAbsent(g: seq<StatementLine>)
    requires AmountCount(g) == 0
    ensures forall j :: 0 <= j < |g| ==> g[j].amount.None?
  {
    if |g| > 0 {
      AmountsAbsent(g[..|g| - 1]);
      assert forall j :: 0 <= j < |g| - 1 ==> g[j] == g[..|g| - 1][j];
    }
  }

  // ---------------------------------------------------------------------
  // The fold builds the groups

  /** The fold's state mirrors the groups of the rows seen so far: the
      finished bookings are the merged groups, and an open last group is the
      booking under construction. */
  predicate Simulates(s: Stitch, groups: seq<seq<StatementLine>>) {
    && Shaped(groups)
    && SingleAmounts(groups)
    && if |groups| == 0 then s == Stitch([], EmptyLine)
      else if Closed(groups[|groups| - 1]) then s == Stitch(MergeAll(groups), EmptyLine)
      else s == Stitch(MergeAll(groups[..|groups| - 1]), Merge(groups[|groups| - 1]))
  }

  /** Before a new group, the booking under construction is finished. */
  lemma FlushBeforeNew(s: Stitch, groups: seq<seq<StatementLine>>)
    requires Simulates(s, groups)
    ensures Flush(s) == Stitch(MergeAll(groups), EmptyLine)
  {
    if |groups| > 0 && !Closed(groups[|groups| - 1]) {
      var n := |groups|;
      MergeNotEmpty(groups[n - 1]);
      assert groups == groups[..n - 1] + [groups[n - 1]];
    }
  }

  /** A row that starts a group. */
  lemma AbsorbNew(s: Stitch, groups: seq<seq<StatementLine>>, b: StatementLine)
    requires Simulates(s, groups) && !b.IsEmpty() && StartsGroup(groups, b)
    ensures Absorb(s, b).Success? && Simulates(Absorb(s, b).value, groups + [[b]])
  {
    FlushBeforeNew(s, groups);
    AbsorbFresh(s, MergeAll(groups), b);
    SimulatesNew(groups, b);
  }

  /** A row absorbed right after the booking under construction was
      finished becomes the new booking under construction, or is itself
      finished when it has a value date. */
  lemma AbsorbFresh(s: Stitch, done: seq<StatementLine>, b: StatementLine)
    requires !b.IsEmpty() && Flush(s) == Stitch(done, EmptyLine)
    requires b.bookingDate.None? ==> s == Stitch(done, EmptyLine)
    ensures Absorb(s, b) == Success(if b.valueDate.Some? then Stitch(done + [b], EmptyLine) else Stitch(done, b))
  {
  }

  lemma SimulatesNew(groups: seq<seq<StatementLine>>, b: StatementLine)
    requires Shaped(groups) && SingleAmounts(groups) && !b.IsEmpty()
    ensures Simulates(if b.valueDate.Some? then Stitch(MergeAll(groups) + [b], EmptyLine) else Stitch(MergeAll(groups), b), groups + [[b]])
  {
    MergeSingle(b);
    var g := groups + [[b]];
    assert g[..|groups|] == groups;
    assert MergeAll(g) == MergeAll(groups) + [b];
    Shape1(b);
    assert g[|groups|] == [b];
    ShapedSnoc(groups, [b]);
    assert AmountCount([b]) <= 1 by {
      assert [b][..0] == [];
    }
    SingleAmountsSnoc(groups, [b]);
  }

  lemma ShapedSnoc(groups: seq<seq<StatementLine>>, g: seq<StatementLine>)
    requires Shaped(groups) && GroupShape(g)
    ensures Shaped(groups + [g])
  {
    var next := groups + [g];
    forall i | 0 <= i < |next| ensures GroupShape(next[i]) {
      if i < |groups| {
        assert next[i] == groups[i];
      }
    }
  }

  lemma Shape1(b: StatementLine)
    requires !b.IsEmpty()
    ensures GroupShape([b])
  {
  }

  /** A row that continues the open group: it fails exactly when both it and
      the group carry an amount. */
  lemma AbsorbJoin(s: Stitch, groups: seq<seq<StatementLine>>, b: StatementLine)
    requires Simulates(s, groups) && !b.IsEmpty() && !StartsGroup(groups, b)
    ensures var g := groups[|groups| - 1];
      Absorb(s, b).Success? <==> AmountCount(g + [b]) <= 1
    ensures Absorb(s, b).Failure? ==> Absorb(s, b).error == MultipleAmounts
    ensures Absorb(s, b).Success? ==>
      Simulates(Absorb(s, b).value, groups[..|groups| - 1] + [groups[|groups| - 1] + [b]])
  {
    var n := |groups|;
    var g := groups[n - 1];
    var before := groups[..n - 1];
    var joined := before + [g + [b]];
    assert s == Stitch(MergeAll(before), Merge(g));
    LastAmountCount(g);
    assert (g + [b])[..|g|] == g;
    MergeSnoc(g, b);
    AbsorbContinue(s, Merge(g), Merge(g + [b]), b);
    if Absorb(s, b).Success? {
      assert joined[..n - 1] == before;
      assert joined[n - 1] == g + [b];
      GroupsAfterJoin(groups, b);
      if b.valueDate.Some? {
        MergeNotEmpty(g + [b]);
      }
    }
  }

  /** A row absorbed into an open booking `current` yields `next`, the
      booking with that row added, unless both carry an amount. */
  lemma AbsorbContinue(s: Stitch, current: StatementLine, next: StatementLine, b: StatementLine)
    requires !b.IsEmpty() && b.bookingDate.None? && s.current == current && current.valueDate.None?
    requires next == current.(
      text := if b.text.Some? then Some(AppendText(current.text, b.text.value)) else current.text,
      amount := if b.amount.Some? then b.amount else current.amount,
      valueDate := b.valueDate)
    ensures Absorb(s, b) ==
      if b.amount.Some? && current.amount.Some? then Failure(MultipleAmounts)
      else if b.valueDate.Some? then Success(Flush(Stitch(s.done, next)))
      else Success(Stitch(s.done, next))
  {
  }

  lemma GroupsAfterJoin(groups: seq<seq<StatementLine>>, b: StatementLine)
    requires Shaped(groups) && SingleAmounts(groups) && !b.IsEmpty() && !StartsGroup(groups, b)
    requires AmountCount(groups[|groups| - 1] + [b]) <= 1
    ensures var joined := groups[..|groups| - 1] + [groups[|groups| - 1] + [b]];
      Shaped(joined) && SingleAmounts(joined)
  {
    var n := |groups|;
    var joined := groups[..n - 1] + [groups[n - 1] + [b]];
    assert forall i :: 0 <= i < n - 1 ==> joined[i] == groups[i];
    assert GroupShape(joined[n - 1]);
  }

  /** A group that already holds two amounts keeps them. */
  lemma {:induction false} AmountCountGrows(g: seq<StatementLine>, b: StatementLine)
    ensures AmountCount(g + [b]) >= AmountCount(g)
  {
    assert (g + [b])[..|g|] == g;
  }

  lemma SingleAmountsSnoc(groups: seq<seq<StatementLine>>, g: seq<StatementLine>)
    ensures SingleAmounts(groups + [g]) <==> SingleAmounts(groups) && AmountCount(g) <= 1
  {
    var next := groups + [g];
    assert next[|groups|] == g;
    if SingleAmounts(groups) && AmountCount(g) <= 1 {
      forall i | 0 <= i < |next| ensures AmountCount(next[i]) <= 1 {
        if i < |groups| {
          assert next[i] == groups[i];
        }
      }
    }
    if SingleAmounts(next) {
      forall i | 0 <= i < |groups| ensures AmountCount(groups[i]) <= 1 {
        assert next[i] == groups[i];
      }
    }
  }

  /** The fold succeeds exactly when no group holds two amounts, and then its
      state mirrors the groups; its only error is a second amount. */
  lemma {:induction false} StitchAllMeaning(lines: seq<StatementLine>)
    ensures StitchAll(lines).Success? <==> SingleAmounts(Groups(lines))
    ensures StitchAll(lines).Success? ==> Simulates(StitchAll(lines).value, Groups(lines))
    ensures StitchAll(lines).Failure? ==> StitchAll(lines).error == MultipleAmounts
  {
    if |lines| > 0 {
      var prefix := lines[..|lines| - 1];
      var b := lines[|lines| - 1];
      var groups := Groups(prefix);
      StitchAllMeaning(prefix);
      GroupsPartition(prefix);
      if StitchAll(prefix).Success? {
        StitchStep(StitchAll(prefix).value, groups, b);
      } else {
        LostStaysLost(groups, b);
      }
    }
  }

  /** One row more, from a state that mirrors the groups. */
  lemma StitchStep(s: Stitch, groups: seq<seq<StatementLine>>, b: StatementLine)
    requires Simulates(s, groups)
    ensures Absorb(s, b).Success? <==> SingleAmounts(NextGroups(groups, b))
    ensures Absorb(s, b).Success? ==> Simulates(Absorb(s, b).value, NextGroups(groups, b))
    ensures Absorb(s, b).Failure? ==> Absorb(s, b).error == MultipleAmounts
  {
    if !b.IsEmpty() {
      if StartsGroup(groups, b) {
        AbsorbNew(s, groups, b);
      } else {
        StitchJoinStep(s, groups, b);
      }
    }
  }

  lemma StitchJoinStep(s: Stitch, groups: seq<seq<StatementLine>>, b: StatementLine)
    requires Simulates(s, groups) && !b.IsEmpty() && !StartsGroup(groups, b)
    ensures Absorb(s, b).Success? <==> SingleAmounts(NextGroups(groups, b))
    ensures Absorb(s, b).Success? ==> Simulates(Absorb(s, b).value, NextGroups(groups, b))
    ensures Absorb(s, b).Failure? ==> Absorb(s, b).error == MultipleAmounts
  {
    var n := |groups|;
    AbsorbJoin(s, groups, b);
    assert groups == groups[..n - 1] + [groups[n - 1]];
    SingleAmountsSnoc(groups[..n - 1], groups[n - 1]);
    SingleAmountsSnoc(groups[..n - 1], groups[n - 1] + [b]);
  }

  /** Once some group holds two amounts, one more row does not repair it. */
  lemma LostStaysLost(groups: seq<seq<StatementLine>>, b: StatementLine)
    requires !SingleAmounts(groups)
    ensures !SingleAmounts(NextGroups(groups, b))
  {
    var n := |groups|;
    SingleAmountsSnoc(groups, [b]);
    if b.IsEmpty() || StartsGroup(groups, b) {
      return;
    }
    assert groups == groups[..n - 1] + [groups[n - 1]];
    SingleAmountsSnoc(groups[..n - 1], groups[n - 1]);
    SingleAmountsSnoc(groups[..n - 1], groups[n - 1] + [b]);
    AmountCountGrows(groups[n - 1], b);
  }

  // ---------------------------------------------------------------------
  // What the combined statement is

  /** Combining succeeds exactly when no booking has two amounts (the
      second-value-date check never fires), and then the bookings are the
      merged groups of the non-empty rows. */
  lemma CombineStatementLinesMeaning(lines: seq<StatementLine>)
    ensures CombineStatementLines(lines).Success? <==> SingleAmounts(Groups(lines))
    ensures CombineStatementLines(lines).Failure? ==> CombineStatementLines(lines).error == MultipleAmounts
    ensures CombineStatementLines(lines).Success? ==>
      GroupsAreNonEmpty(Groups(lines)) && CombineStatementLines(lines).value == MergeAll(Groups(lines))
  {
    StitchAllMeaning(lines);
    if StitchAll(lines).Success? {
      FlushAtEnd(StitchAll(lines).value, Groups(lines));
    }
  }

  predicate GroupsAreNonEmpty(groups: seq<seq<StatementLine>>) {
    forall i :: 0 <= i < |groups| ==> |groups[i]| > 0
  }

  lemma FlushAtEnd(s: Stitch, groups: seq<seq<StatementLine>>)
    requires Simulates(s, groups)
    ensures GroupsAreNonEmpty(groups) && Flush(s).done == MergeAll(groups)
  {
    FlushBeforeNew(s, groups);
  }

  /** No combined booking is empty: every one has a date, an amount or text
      that is not all whitespace. */
  lemma CombinedNotEmpty(lines: seq<StatementLine>)
    requires CombineStatementLines(lines).Success?
    ensures forall i :: 0 <= i < |CombineStatementLines(lines).value| ==> !CombineStatementLines(lines).value[i].IsEmpty()
  {
    CombineStatementLinesMeaning(lines);
    GroupsPartition(lines);
    MergeAllNotEmpty(Groups(lines));
  }

  lemma {:induction false} MergeAllNotEmpty(groups: seq<seq<StatementLine>>)
    requires Shaped(groups)
    ensures forall i :: 0 <= i < |groups| ==> !MergeAll(groups)[i].IsEmpty()
  {
    if |groups| > 0 {
      var n := |groups|;
      assert forall i :: 0 <= i < n - 1 ==> groups[..n - 1][i] == groups[i];
      MergeAllNotEmpty(groups[..n - 1]);
      MergeNotEmpty(groups[n - 1]);
    }
  }
}
