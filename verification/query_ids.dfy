/** The two ticket-id schemes of the store.

    The submission form derives an id from the number of rows already in
    `client_queries`: `"Q" + format(count + 1, "04d")`.  The table's
    `BEFORE INSERT` trigger, which only fires for a row whose id is NULL or
    empty, instead takes the string-greatest stored id, reads its digits
    after the `Q`, adds one and writes `"Q" + LPAD(next, 4, '0')`. */
module QueryIds {
  import opened Text

  /** An id of the shape both schemes produce: `Q` then at least one digit. */
  predicate IsQId(id: string) {
    |id| >= 2 && id[0] == 'Q' && AllDigits(id[1..])
  }

  predicate AllQIds(ids: seq<string>) {
    forall i :: 0 <= i < |ids| ==> IsQId(ids[i])
  }

  /** `CAST(SUBSTRING(query_id, 2) AS UNSIGNED)` on a well-formed id: the
      number the digits after the `Q` denote, below 10^(digits). */
  function Suffix(id: string): (n: nat)
    requires IsQId(id)
    ensures n < Pow10(|id| - 1)
  {
    ValueBound(id[1..]);
    Value(id[1..])
  }

  /** Writing the number back zero-filled to the id's width restores the
      id: the cast loses nothing but the padding. */
  lemma SuffixRoundTrip(id: string)
    requires IsQId(id)
    ensures "Q" + ZeroFill(Decimal(Suffix(id)), |id| - 1) == id
  {
    var digits := id[1..];
    DigitsRoundTrip(digits);
    QPrefixed(id);
  }

  lemma QPrefixed(id: string)
    requires IsQId(id)
    ensures id == "Q" + id[1..]
  {
    assert id == [id[0]] + id[1..];
  }

  /** The id the submission form gives the next ticket when the table holds
      `rowCount` rows.  Its number is `rowCount + 1`; it is five characters
      while that number has at most four digits and is never cut short. */
  function AppId(rowCount: nat): (id: string)
    ensures IsQId(id)
    ensures Suffix(id) == rowCount + 1
    ensures rowCount + 1 <= 9999 <==> |id| == 5
    ensures |id| == 1 + |Decimal(rowCount + 1)| || |id| == 5
  {
    var digits := ZeroFill(Decimal(rowCount + 1), 4);
    DecimalLength(rowCount + 1, 4);
    assert ("Q" + digits)[1..] == digits;
    "Q" + digits
  }

  /** The form's ids are distinct for distinct row counts. */
  lemma AppIdInjective(i: nat, j: nat)
    requires AppId(i) == AppId(j)
    ensures i == j
  {
    assert Suffix(AppId(i)) == Suffix(AppId(j));
  }

  /** Two ids of the same length compare as strings the way their numbers
      compare. */
  lemma SameLengthIdOrder(a: string, b: string)
    requires IsQId(a) && IsQId(b) && |a| == |b|
    ensures LexLe(a, b) <==> Suffix(a) <= Suffix(b)
  {
    assert a == [a[0]] + a[1..];
    assert b == [b[0]] + b[1..];
    LexLeCommonHead('Q', a[1..], b[1..]);
    LexLeIsNumericOrder(a[1..], b[1..]);
  }

  /** Two ids of the same length and the same number are the same id. */
  lemma SameLengthSameSuffix(a: string, b: string)
    requires IsQId(a) && IsQId(b) && |a| == |b| && Suffix(a) == Suffix(b)
    ensures a == b
  {
    SameLengthIdOrder(a, b);
    SameLengthIdOrder(b, a);
    LexLeAntisymmetric(a, b);
  }

  lemma UpperBoundRaised(ids: seq<string>, m: string, g: string)
    requires forall x :: x in ids ==> LexLe(x, m)
    requires LexLe(m, g)
    ensures forall x :: x in ids ==> LexLe(x, g)
  {
    forall x | x in ids
      ensures LexLe(x, g)
    {
      LexLeTransitive(x, m, g);
    }
  }

  /** The id `ORDER BY query_id DESC LIMIT 1` returns: a stored id that is
      at least every other stored id in string order. */
  function GreatestId(ids: seq<string>): (g: string)
    requires |ids| > 0
    ensures g in ids
    ensures forall x :: x in ids ==> LexLe(x, g)
  {
    if |ids| == 1 then
      LexLeTotal(ids[0], ids[0]);
      ids[0]
    else
      var m := GreatestId(ids[1..]);
      assert forall x :: x in ids ==> x == ids[0] || x in ids[1..];
      LexLeTotal(m, ids[0]);
      if LexLe(m, ids[0]) then
        LexLeTotal(ids[0], ids[0]);
        UpperBoundRaised(ids[1..], m, ids[0]);
        ids[0]
      else
        m
  }

  /** `next_id` in the trigger: the number of the string-greatest id, plus one. */
  function TriggerNext(ids: seq<string>): (n: nat)
    requires |ids| > 0 && AllQIds(ids)
    ensures n >= 1
  {
    var g := GreatestId(ids);
    assert IsQId(g);
    Suffix(g) + 1
  }

  /** The id the trigger writes: `"Q" + LPAD(next_id, 4, '0')`.  It always
      has five characters; up to 9999 it carries `next_id` exactly, and
      beyond that it keeps only the first four digits of `next_id`. */
  function TriggerId(ids: seq<string>): (id: string)
    requires |ids| > 0 && AllQIds(ids)
    ensures IsQId(id) && |id| == 5
    ensures TriggerNext(ids) <= 9999 ==> Suffix(id) == TriggerNext(ids)
    ensures TriggerNext(ids) > 9999 ==>
              |Decimal(TriggerNext(ids))| > 4 && id == "Q" + Decimal(TriggerNext(ids))[..4]
  {
    var n := TriggerNext(ids);
    var digits := Lpad(Decimal(n), 4);
    DecimalLength(n, 4);
    assert ("Q" + digits)[1..] == digits;
    "Q" + digits
  }

  /** When all stored ids have one length, string order and numeric order
      agree, so the trigger's `next_id` is one more than the largest stored
      number. */
  lemma {:induction false} TriggerNextIsNumericMax(ids: seq<string>)
    requires |ids| > 0 && AllQIds(ids)
    requires forall i, j :: 0 <= i < |ids| && 0 <= j < |ids| ==> |ids[i]| == |ids[j]|
    ensures forall i :: 0 <= i < |ids| ==> Suffix(ids[i]) < TriggerNext(ids)
    ensures exists i :: 0 <= i < |ids| && Suffix(ids[i]) + 1 == TriggerNext(ids)
  {
    var g := GreatestId(ids);
    var k :| 0 <= k < |ids| && ids[k] == g;
    forall i | 0 <= i < |ids|
      ensures Suffix(ids[i]) < TriggerNext(ids)
    {
      SameLengthIdOrder(ids[i], g);
    }
  }

  /** The ids `AppId(0) .. AppId(n - 1)`, i.e. `Q0001 .. Qn`, each once. */
  predicate ExactlyFirstIds(ids: seq<string>) {
    (forall i, j :: 0 <= i < j < |ids| ==> ids[i] != ids[j])
    && (forall j :: 0 <= j < |ids| ==> AppId(j) in ids)
    && (forall i :: 0 <= i < |ids| ==> exists j :: 0 <= j < |ids| && ids[i] == AppId(j))
  }

  /** `Q0001 .. Qn` in order are exactly the first ids. */
  lemma FirstIdsInOrder(ids: seq<string>)
    requires forall j :: 0 <= j < |ids| ==> ids[j] == AppId(j)
    ensures ExactlyFirstIds(ids)
  {
    forall i, j | 0 <= i < j < |ids|
      ensures ids[i] != ids[j]
    {
      assert Suffix(ids[i]) == i + 1 && Suffix(ids[j]) == j + 1;
    }
    forall j | 0 <= j < |ids|
      ensures AppId(j) in ids
      ensures exists k :: 0 <= k < |ids| && ids[j] == AppId(k)
    {
      assert ids[j] == AppId(j);
    }
  }

  /** When the stored ids are exactly `Q0001 .. Qn` (in any order) and the
      next number still has four digits, the form's count-based id and the
      trigger's max-based id are the same. */
  lemma {:induction false} SchemesAgreeOnFirstIds(ids: seq<string>)
    requires 1 <= |ids| <= 9998
    requires ExactlyFirstIds(ids)
    ensures AllQIds(ids)
    ensures TriggerId(ids) == AppId(|ids|)
  {
    FirstIdsShape(ids);
    FirstIdsNext(ids);
    SameLengthSameSuffix(TriggerId(ids), AppId(|ids|));
  }

  lemma FirstIdsShape(ids: seq<string>)
    requires |ids| <= 9998 && ExactlyFirstIds(ids)
    ensures forall i :: 0 <= i < |ids| ==> IsQId(ids[i]) && |ids[i]| == 5 && 1 <= Suffix(ids[i]) <= |ids|
  {
    forall i | 0 <= i < |ids|
      ensures IsQId(ids[i]) && |ids[i]| == 5 && 1 <= Suffix(ids[i]) <= |ids|
    {
      var j :| 0 <= j < |ids| && ids[i] == AppId(j);
    }
  }

  lemma FirstIdsNext(ids: seq<string>)
    requires 1 <= |ids| <= 9998 && ExactlyFirstIds(ids)
    requires forall i :: 0 <= i < |ids| ==> IsQId(ids[i]) && |ids[i]| == 5 && 1 <= Suffix(ids[i]) <= |ids|
    ensures AllQIds(ids) && TriggerNext(ids) == |ids| + 1
  {
    TriggerNextIsNumericMax(ids);
    assert AppId(|ids| - 1) in ids;
    var k :| 0 <= k < |ids| && ids[k] == AppId(|ids| - 1);
  }

  /** Once the stored ids leave a gap, the schemes disagree: with the single
      row `AppId(k)` (the id `Q(k+1)`), the form proposes `Q0002` while the
      trigger would write `Q(k+2)`. */
  lemma SchemesDisagreeAfterGap(k: nat)
    requires 1 <= k <= 9997
    ensures AllQIds([AppId(k)])
    ensures TriggerId([AppId(k)]) == AppId(k + 1)
    ensures AppId(|[AppId(k)]|) != TriggerId([AppId(k)])
  {
    var ids := [AppId(k)];
    assert GreatestId(ids) == AppId(k);
    SameLengthSameSuffix(TriggerId(ids), AppId(k + 1));
    assert Suffix(AppId(1)) != Suffix(TriggerId(ids));
  }

  /** The form's id can already be taken: a table whose only row is
      `Q0002` (entered by the CSV importer, say) makes the form propose
      `Q0002` again. */
  lemma AppIdCanRepeatStoredId()
    ensures AppId(|[AppId(1)]|) in [AppId(1)]
  {
  }

  /** `LPAD` cuts `next_id = 10000` to `"1000"`: once `Q9999` is the
      greatest stored id, the trigger writes `Q1000`, the id the form gives
      the 1000th ticket, so the generated id repeats one that is normally
      already stored. */
  lemma {:induction false} TriggerRepeatsAfterQ9999(ids: seq<string>)
    requires |ids| > 0 && AllQIds(ids)
    requires forall i :: 0 <= i < |ids| ==> |ids[i]| == 5
    requires AppId(9998) in ids
    ensures TriggerNext(ids) == 10000
    ensures TriggerId(ids) == AppId(999)
  {
    NextAfterQ9999(ids);
    FirstFourDigitsOfTenThousand();
    var id := TriggerId(ids);
    assert id[1..] == Decimal(1000);
    SameLengthSameSuffix(id, AppId(999));
  }

  lemma NextAfterQ9999(ids: seq<string>)
    requires |ids| > 0 && AllQIds(ids)
    requires forall i :: 0 <= i < |ids| ==> |ids[i]| == 5
    requires AppId(9998) in ids
    ensures TriggerNext(ids) == 10000
  {
    var g := GreatestId(ids);
    var k :| 0 <= k < |ids| && ids[k] == g;
    assert IsQId(g) && |g| == 5;
    assert LexLe(AppId(9998), g);
    SameLengthIdOrder(AppId(9998), g);
    assert Suffix(g) >= 9999;
    assert Pow10(4) == 10000 by { PowersOfTen(); }
    assert Suffix(g) < 10000;
    assert TriggerNext(ids) == Suffix(g) + 1;
  }

  lemma PowersOfTen()
    ensures Pow10(3) == 1000 && Pow10(4) == 10000
  {
    assert Pow10(1) == 10;
    assert Pow10(2) == 100;
  }

  lemma FirstFourDigitsOfTenThousand()
    ensures |Decimal(10000)| > 4 && Decimal(10000)[..4] == Decimal(1000)
  {
    DecimalLength(1000, 4);
    DecimalLength(1000, 3);
    assert Pow10(3) == 1000;
    assert Decimal(10000) == Decimal(1000) + [DigitChar(0)];
  }
}
