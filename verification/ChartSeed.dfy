/**
 * Seeding a book's chart of accounts from a template (`chart.ts`): roots first, then everything
 * with a parent, skipping codes that are there.
 */
module ChartSeed {
  import opened Prelude

  datatype TemplateAccount = TemplateAccount(code: string, systemKey: Option<string>, parent: Option<string>)

  /** A row of one book's chart; a parent is named by its code, which is unique in the book. */
  datatype Row = Row(code: string, systemKey: Option<string>, parent: Option<string>)

  predicate HasCode(rows: seq<Row>, code: string) {
    exists i :: 0 <= i < |rows| && rows[i].code == code
  }

  predicate HasKey(rows: seq<Row>, key: Option<string>) {
    key.Some? && exists i :: 0 <= i < |rows| && rows[i].systemKey == key
  }

  /** One pass of the loop: skip, throw, or insert; the unique index on system keys may refuse. */
  function SeedOne(rows: seq<Row>, a: TemplateAccount): Result<seq<Row>> {
    if HasCode(rows, a.code) then Ok(rows)
    else if a.parent.Some? && !HasCode(rows, a.parent.value) then Err(Validation)
    else if HasKey(rows, a.systemKey) then Err(Conflict)
    else Ok(rows + [Row(a.code, a.systemKey, a.parent)])
  }

  function SeedAll(rows: seq<Row>, accounts: seq<TemplateAccount>): Result<seq<Row>> {
    if accounts == [] then Ok(rows)
    else
      var init :- SeedAll(rows, accounts[..|accounts| - 1]);
      SeedOne(init, accounts[|accounts| - 1])
  }

  function Filtered(template: seq<TemplateAccount>, roots: bool): seq<TemplateAccount> {
    if template == [] then []
    else
      var last := template[|template| - 1];
      Filtered(template[..|template| - 1], roots) + if last.parent.None? == roots then [last] else []
  }

  function Ordered(template: seq<TemplateAccount>): seq<TemplateAccount> {
    Filtered(template, true) + Filtered(template, false)
  }

  function Seed(rows: seq<Row>, template: seq<TemplateAccount>): Result<seq<Row>> {
    SeedAll(rows, Ordered(template))
  }

  /** The loop itself, with its map from code to row. */
  method SeedInLoop(rows: seq<Row>, template: seq<TemplateAccount>) returns (r: Result<seq<Row>>)
    ensures r == Seed(rows, template)
  {
    var ordered := Ordered(template);
    var chart := rows;
    var byCode: map<string, Row> := map[];
    for i := 0 to |rows|
      invariant forall code :: code in byCode <==> HasCode(rows[..i], code)
    {
      assert rows[..i + 1] == rows[..i] + [rows[i]];
      OneMoreCode(rows[..i], rows[i]);
      byCode := byCode[rows[i].code := rows[i]];
    }
    assert rows[..|rows|] == rows;
    for k := 0 to |ordered|
      invariant SeedAll(rows, ordered[..k]) == Ok(chart)
      invariant forall code :: code in byCode <==> HasCode(chart, code)
    {
      var account := ordered[k];
      assert ordered[..k + 1][..k] == ordered[..k];
      if account.code !in byCode {
        if account.parent.Some? && account.parent.value !in byCode {
          FirstErrorEnds(rows, ordered, k + 1);
          return Err(Validation);
        }
        if HasKey(chart, account.systemKey) {
          FirstErrorEnds(rows, ordered, k + 1);
          return Err(Conflict);
        }
        var row := Row(account.code, account.systemKey, account.parent);
        OneMoreCode(chart, row);
        chart := chart + [row];
        byCode := byCode[row.code := row];
      }
    }
    assert ordered[..|ordered|] == ordered;
    r := Ok(chart);
  }

  lemma {:induction false} FirstErrorEnds(rows: seq<Row>, accounts: seq<TemplateAccount>, k: nat)
    requires k <= |accounts| && SeedAll(rows, accounts[..k]).Err?
    ensures SeedAll(rows, accounts) == SeedAll(rows, accounts[..k])
  {
    if k == |accounts| {
      assert accounts[..k] == accounts;
    } else {
      assert accounts[..|accounts| - 1][..k] == accounts[..k];
      FirstErrorEnds(rows, accounts[..|accounts| - 1], k);
    }
  }

  lemma OneMoreCode(rows: seq<Row>, row: Row)
    ensures forall code :: HasCode(rows + [row], code) <==> HasCode(rows, code) || code == row.code
  {
    forall code | HasCode(rows, code) || code == row.code ensures HasCode(rows + [row], code) {
      if HasCode(rows, code) {
        var i :| 0 <= i < |rows| && rows[i].code == code;
        assert (rows + [row])[i].code == code;
      } else {
        assert (rows + [row])[|rows|].code == code;
      }
    }
  }

  // ----- What seeding keeps and leaves -----

  /** Codes and system keys name one row each, and a parent stands before its children. */
  ghost predicate ChartOk(rows: seq<Row>) {
    && (forall i, j :: 0 <= i < j < |rows| ==> rows[i].code != rows[j].code)
    && (forall i, j :: 0 <= i < j < |rows| && rows[i].systemKey.Some? ==> rows[i].systemKey != rows[j].systemKey)
    && (forall i :: 0 <= i < |rows| && rows[i].parent.Some? ==> HasCode(rows[..i], rows[i].parent.value))
  }

  lemma SeedOneKeeps(rows: seq<Row>, a: TemplateAccount)
    requires ChartOk(rows) && SeedOne(rows, a).Ok?
    ensures ChartOk(SeedOne(rows, a).value) && rows <= SeedOne(rows, a).value && HasCode(SeedOne(rows, a).value, a.code)
  {
    var after := SeedOne(rows, a).value;
    if after != rows {
      OneMoreCode(rows, Row(a.code, a.systemKey, a.parent));
      forall i | 0 <= i < |after| && after[i].parent.Some? ensures HasCode(after[..i], after[i].parent.value) {
        assert after[..i] == if i < |rows| then rows[..i] else rows;
      }
    }
  }

  /** Seeding only appends, keeps the chart sound, and leaves every template code present. */
  lemma {:induction false} SeedKeeps(rows: seq<Row>, accounts: seq<TemplateAccount>)
    requires ChartOk(rows) && SeedAll(rows, accounts).Ok?
    ensures ChartOk(SeedAll(rows, accounts).value) && rows <= SeedAll(rows, accounts).value
    ensures forall a :: a in accounts ==> HasCode(SeedAll(rows, accounts).value, a.code)
  {
    hide SeedOne, ChartOk, HasCode;
    if accounts != [] {
      var k := |accounts| - 1;
      var init := SeedAll(rows, accounts[..k]).value;
      SeedKeeps(rows, accounts[..k]);
      SeedOneKeeps(init, accounts[k]);
      forall a | a in accounts ensures HasCode(SeedAll(rows, accounts).value, a.code) {
        if a in accounts[..k] {
          PrefixCodes(init, SeedAll(rows, accounts).value, a.code);
        }
      }
    }
  }

  lemma PrefixCodes(rows: seq<Row>, more: seq<Row>, code: string)
    requires rows <= more && HasCode(rows, code)
    ensures HasCode(more, code)
  {
    var i :| 0 <= i < |rows| && rows[i].code == code;
    assert more[i].code == code;
  }

  lemma {:induction false} NothingToSeed(rows: seq<Row>, accounts: seq<TemplateAccount>)
    requires forall a :: a in accounts ==> HasCode(rows, a.code)
    ensures SeedAll(rows, accounts) == Ok(rows)
  {
    if accounts != [] {
      NothingToSeed(rows, accounts[..|accounts| - 1]);
    }
  }

  /** Seeding a seeded book again adds nothing. */
  lemma SeedIdempotent(rows: seq<Row>, template: seq<TemplateAccount>)
    requires ChartOk(rows) && Seed(rows, template).Ok?
    ensures Seed(Seed(rows, template).value, template) == Seed(rows, template)
  {
    SeedKeeps(rows, Ordered(template));
    NothingToSeed(Seed(rows, template).value, Ordered(template));
  }

  // ----- When the parent check throws -----

  /** The code is in the book, or among the accounts already passed. */
  ghost predicate Known(rows: seq<Row>, passed: seq<TemplateAccount>, code: string) {
    HasCode(rows, code) || exists a :: a in passed && a.code == code
  }

  /** Every account is known already, or has no parent, or comes after its parent. */
  ghost predicate ParentsFirst(rows: seq<Row>, accounts: seq<TemplateAccount>) {
    forall k | 0 <= k < |accounts| :: Known(rows, accounts[..k], accounts[k].code) || accounts[k].parent.None?
      || Known(rows, accounts[..k], accounts[k].parent.value)
  }

  lemma {:induction false} CodesAreKnown(rows: seq<Row>, accounts: seq<TemplateAccount>)
    requires SeedAll(rows, accounts).Ok?
    ensures forall code :: HasCode(SeedAll(rows, accounts).value, code) <==> Known(rows, accounts, code)
  {
    if accounts != [] {
      var k := |accounts| - 1;
      var init := SeedAll(rows, accounts[..k]).value;
      CodesAreKnown(rows, accounts[..k]);
      OneMoreCode(init, Row(accounts[k].code, accounts[k].systemKey, accounts[k].parent));
      forall code ensures Known(rows, accounts, code) <==> Known(rows, accounts[..k], code) || code == accounts[k].code {
        assert accounts == accounts[..k] + [accounts[k]];
        assert accounts[k] in accounts;
      }
    }
  }

  /** Short of a system-key clash, seeding succeeds exactly when no new account precedes its parent. */
  lemma {:induction false} SeedsWhenParentsFirst(rows: seq<Row>, accounts: seq<TemplateAccount>)
    requires SeedAll(rows, accounts) != Err(Conflict)
    ensures SeedAll(rows, accounts).Ok? <==> ParentsFirst(rows, accounts)
    ensures SeedAll(rows, accounts).Err? ==> SeedAll(rows, accounts) == Err(Validation)
  {
    hide Known, HasCode;
    if accounts != [] {
      var k := |accounts| - 1;
      SeedsWhenParentsFirst(rows, accounts[..k]);
      if SeedAll(rows, accounts[..k]).Ok? {
        CodesAreKnown(rows, accounts[..k]);
      }
      ParentsFirstSnoc(rows, accounts);
    }
  }

  lemma ParentsFirstSnoc(rows: seq<Row>, accounts: seq<TemplateAccount>)
    requires accounts != []
    ensures var k := |accounts| - 1;
            ParentsFirst(rows, accounts)
            <==> ParentsFirst(rows, accounts[..k])
                 && (Known(rows, accounts[..k], accounts[k].code) || accounts[k].parent.None?
                     || Known(rows, accounts[..k], accounts[k].parent.value))
  {
    hide Known;
    var k := |accounts| - 1;
    forall i | 0 <= i < k ensures accounts[..k][..i] == accounts[..i] && accounts[..k][i] == accounts[i] {
    }
  }

  lemma {:induction false} FilteredExactly(template: seq<TemplateAccount>, roots: bool)
    ensures forall a :: a in Filtered(template, roots) <==> a in template && a.parent.None? == roots
  {
    if template != [] {
      FilteredExactly(template[..|template| - 1], roots);
      assert template == template[..|template| - 1] + [template[|template| - 1]];
    }
  }

  /** A two-level template, in any order, never trips the parent check. */
  lemma TwoLevelsSeed(rows: seq<Row>, template: seq<TemplateAccount>)
    requires forall a :: a in template && a.parent.Some? ==>
               HasCode(rows, a.parent.value) || exists p :: p in template && p.parent.None? && p.code == a.parent.value
    requires Seed(rows, template) != Err(Conflict)
    ensures Seed(rows, template).Ok?
  {
    hide HasCode, SeedAll;
    var roots, children := Filtered(template, true), Filtered(template, false);
    var ordered := Ordered(template);
    FilteredExactly(template, true);
    FilteredExactly(template, false);
    forall i | 0 <= i < |roots| ensures roots[i].parent.None? {
      assert roots[i] in roots;
    }
    forall k | 0 <= k < |ordered| && ordered[k].parent.Some? ensures Known(rows, ordered[..k], ordered[k].parent.value) {
      assert ordered[k] in children;
      assert ordered[..k] == roots + children[..k - |roots|];
    }
    SeedsWhenParentsFirst(rows, ordered);
  }

  /**
   * With three levels written child before parent the check throws, although the template defines
   * the parent it says is missing.
   */
  lemma ThreeLevelsCanFail()
    ensures var template := [TemplateAccount("1100", None, Some("1050")), TemplateAccount("1050", None, Some("1000")),
                             TemplateAccount("1000", None, None)];
            Seed([], template) == Err(Validation)
  {
    var top, middle, leaf := TemplateAccount("1000", None, None), TemplateAccount("1050", None, Some("1000")), TemplateAccount("1100", None, Some("1050"));
    OrderOfThree(top, middle, leaf);
    var ordered := [top, leaf, middle];
    NoKeysNoConflict([], ordered);
    assert "1100"[1] == '1' && "1000"[1] == '0' && "1050"[2] == '5' && "1000"[2] == '0';
    assert ordered[..1] == [top];
    assert !Known([], ordered[..1], "1100") && !Known([], ordered[..1], "1050");
    assert ordered[1] == leaf && !ParentsFirst([], ordered);
    SeedsWhenParentsFirst([], ordered);
  }

  lemma OrderOfThree(top: TemplateAccount, middle: TemplateAccount, leaf: TemplateAccount)
    requires top.parent.None? && middle.parent.Some? && leaf.parent.Some?
    ensures Ordered([leaf, middle, top]) == [top, leaf, middle]
  {
    FilteredSnoc([], leaf);
    FilteredSnoc([leaf], middle);
    FilteredSnoc([leaf, middle], top);
    assert [] + [leaf] == [leaf] && [leaf] + [middle] == [leaf, middle] && [leaf, middle] + [top] == [leaf, middle, top];
    assert [top] + [leaf, middle] == [top, leaf, middle];
  }

  lemma FilteredSnoc(template: seq<TemplateAccount>, a: TemplateAccount)
    ensures forall roots :: Filtered(template + [a], roots) == Filtered(template, roots) + if a.parent.None? == roots then [a] else []
  {
    assert (template + [a])[..|template|] == template;
  }

  lemma {:induction false} NoKeysNoConflict(rows: seq<Row>, accounts: seq<TemplateAccount>)
    requires forall a :: a in accounts ==> a.systemKey.None?
    ensures SeedAll(rows, accounts) != Err(Conflict)
  {
    if accounts != [] {
      NoKeysNoConflict(rows, accounts[..|accounts| - 1]);
    }
  }

  // ----- What seeding adds -----

  ghost predicate Copies(a: TemplateAccount, row: Row) {
    row.code == a.code && row.systemKey == a.systemKey && row.parent == a.parent
  }

  /** The rows there were, in place, then only copies of template accounts whose code was missing. */
  lemma {:induction false} SeedAdds(rows: seq<Row>, accounts: seq<TemplateAccount>)
    requires SeedAll(rows, accounts).Ok?
    ensures var after := SeedAll(rows, accounts).value;
            && rows <= after
            && forall i :: |rows| <= i < |after| ==> !HasCode(rows, after[i].code) && exists k :: 0 <= k < |accounts| && Copies(accounts[k], after[i])
  {
    hide HasCode;
    if accounts != [] {
      var k := |accounts| - 1;
      var init, after := SeedAll(rows, accounts[..k]).value, SeedAll(rows, accounts).value;
      SeedAdds(rows, accounts[..k]);
      forall i | |rows| <= i < |after| ensures !HasCode(rows, after[i].code) && exists j :: 0 <= j < |accounts| && Copies(accounts[j], after[i]) {
        if i < |init| {
          var j :| 0 <= j < k && Copies(accounts[..k][j], init[i]);
          assert accounts[..k][j] == accounts[j];
        } else {
          assert Copies(accounts[k], after[i]);
          MissingBefore(rows, init, accounts[k].code);
        }
      }
    }
  }

  lemma MissingBefore(rows: seq<Row>, more: seq<Row>, code: string)
    requires rows <= more && !HasCode(more, code)
    ensures !HasCode(rows, code)
  {
    forall i | 0 <= i < |rows| ensures rows[i] == more[i] {
    }
  }

  /** The accounts of the template, no root after an account that has a parent. */
  lemma OrderedExactly(template: seq<TemplateAccount>)
    ensures forall a :: a in Ordered(template) <==> a in template
    ensures forall i, j :: 0 <= i < j < |Ordered(template)| && Ordered(template)[i].parent.Some? ==> Ordered(template)[j].parent.Some?
  {
    hide Filtered;
    FilteredExactly(template, true);
    FilteredExactly(template, false);
    var roots, children, ordered := Filtered(template, true), Filtered(template, false), Ordered(template);
    forall i | 0 <= i < |ordered| ensures i < |roots| ==> ordered[i].parent.None? {
      assert i < |roots| ==> ordered[i] in roots;
    }
    forall i | 0 <= i < |ordered| ensures i >= |roots| ==> ordered[i].parent.Some? {
      assert i >= |roots| ==> ordered[i] in children;
    }
  }

  // ----- One account after another -----

  /** What one account makes of the rows there are, clause by clause. */
  ghost predicate Takes(rows: seq<Row>, a: TemplateAccount, r: Result<seq<Row>>) {
    if exists i :: 0 <= i < |rows| && rows[i].code == a.code then r == Ok(rows)
    else if a.parent.Some? && forall i :: 0 <= i < |rows| ==> rows[i].code != a.parent.value then r == Err(Validation)
    else if a.systemKey.Some? && exists i :: 0 <= i < |rows| && rows[i].systemKey == a.systemKey then r == Err(Conflict)
    else r.Ok? && |r.value| == |rows| + 1 && r.value[..|rows|] == rows && Copies(a, r.value[|rows|])
  }

  /** The run starts from the rows there are, takes each account in its turn, and stops at the first refusal. */
  lemma SeedRuns(rows: seq<Row>, accounts: seq<TemplateAccount>, k: nat)
    requires k < |accounts|
    ensures SeedAll(rows, []) == Ok(rows)
    ensures SeedAll(rows, accounts[..k]).Ok? ==> Takes(SeedAll(rows, accounts[..k]).value, accounts[k], SeedAll(rows, accounts[..k + 1]))
    ensures SeedAll(rows, accounts[..k]).Err? ==> SeedAll(rows, accounts) == SeedAll(rows, accounts[..k])
  {
    hide SeedOne, Takes;
    assert accounts[..k + 1][..k] == accounts[..k];
    if SeedAll(rows, accounts[..k]).Ok? {
      OneTakes(SeedAll(rows, accounts[..k]).value, accounts[k]);
    } else {
      FirstErrorEnds(rows, accounts, k);
    }
  }

  lemma OneTakes(rows: seq<Row>, a: TemplateAccount)
    ensures Takes(rows, a, SeedOne(rows, a))
  {
  }
}
