/**
 * The monthly delivery job. Given the anniversary id and a month number in
 * its input data, the worker fetches the anniversary's wishes (sorted by
 * month), takes the first one of that month and, if it is not delivered
 * yet, marks it delivered. Because an already delivered wish is left
 * alone, running the job again with the same input changes nothing.
 */
module ReminderWorker {
  import opened Model
  import opened KeyOrder
  import opened Repository

  // ---------------------------------------------------------------------
  // Input data

  /** A value stored in the worker's input data. */
  datatype DataValue = StringValue(s: string) | IntValue(i: int)

  type WorkData = map<string, DataValue>

  const AnniversaryIdKey: string := "anniversary_id"
  const MonthNumberKey: string := "month_number"

  /** `getString(key)`: the string stored under `key`, if there is one. */
  function GetString(d: WorkData, key: string): (r: Option<string>)
    ensures r.Some? <==> key in d && d[key].StringValue?
    ensures r.Some? ==> d[key] == StringValue(r.value)
  {
    if key in d && d[key].StringValue? then Some(d[key].s) else None
  }

  /** `getInt(key, default)`: the integer stored under `key`, or `default`. */
  function GetInt(d: WorkData, key: string, default: int): (r: int)
    ensures key in d && d[key].IntValue? ==> d[key] == IntValue(r)
    ensures !(key in d && d[key].IntValue?) ==> r == default
  {
    if key in d && d[key].IntValue? then d[key].i else default
  }

  /** `createInputData(anniversaryId, monthNumber)`. */
  function CreateInputData(anniversaryId: string, monthNumber: int): (d: WorkData)
    ensures d.Keys == {AnniversaryIdKey, MonthNumberKey}
  {
    map[AnniversaryIdKey := StringValue(anniversaryId), MonthNumberKey := IntValue(monthNumber)]
  }

  /** The month the job delivers; 1 when the input names none. */
  function MonthOf(input: WorkData): (m: int)
    ensures MonthNumberKey in input && input[MonthNumberKey].IntValue? ==> m == input[MonthNumberKey].i
    ensures !(MonthNumberKey in input && input[MonthNumberKey].IntValue?) ==> m == 1
  {
    GetInt(input, MonthNumberKey, 1)
  }

  /** Decoding the encoded input gives back the id and the month. */
  lemma InputDataRoundTrip(anniversaryId: string, monthNumber: int)
    ensures GetString(CreateInputData(anniversaryId, monthNumber), AnniversaryIdKey) == Some(anniversaryId)
    ensures MonthOf(CreateInputData(anniversaryId, monthNumber)) == monthNumber
  {
    var d := CreateInputData(anniversaryId, monthNumber);
    assert AnniversaryIdKey != MonthNumberKey by { assert AnniversaryIdKey[0] != MonthNumberKey[0]; }
    assert d[AnniversaryIdKey] == StringValue(anniversaryId);
    assert d[MonthNumberKey] == IntValue(monthNumber);
  }

  /** Without a month in the input, the job delivers month 1. */
  lemma MonthDefaultsToOne(input: WorkData)
    requires MonthNumberKey !in input
    ensures MonthOf(input) == 1
  {
  }

  // ---------------------------------------------------------------------
  // Choosing the wish

  /** The index of the first wish of month `m` in `s`, or `|s|` if none. */
  function FirstIndexOfMonth(s: seq<WishMessage>, m: int): (i: nat)
    ensures i <= |s|
    ensures forall j :: 0 <= j < i ==> s[j].monthNumber != m
    ensures i < |s| ==> s[i].monthNumber == m
  {
    if s == [] then 0
    else if s[0].monthNumber == m then 0
    else 1 + FirstIndexOfMonth(s[1..], m)
  }

  /** `wishes.find { it.monthNumber == monthNumber }`. */
  function FindWishForMonth(s: seq<WishMessage>, m: int): (r: Option<WishMessage>)
    ensures r.None? <==> forall i :: 0 <= i < |s| ==> s[i].monthNumber != m
    ensures r.Some? ==> r.value in s && r.value.monthNumber == m
    ensures r.Some? ==> r.value == s[FirstIndexOfMonth(s, m)]
  {
    var i := FirstIndexOfMonth(s, m);
    if i < |s| then Some(s[i]) else None
  }

  /**
   * Searching a list that holds exactly the anniversary's wishes finds
   * nothing just when none of them is of month `m`.
   */
  lemma FindWishForMonthNone(wishes: map<Key, WishMessage>, anniversaryId: Key, s: seq<WishMessage>, m: int)
    requires forall w :: w in s <==> w in wishes.Values && w.anniversaryId == anniversaryId
    ensures FindWishForMonth(s, m).None? <==>
              forall w :: w in wishes.Values && w.anniversaryId == anniversaryId ==> w.monthNumber != m
  {
    var r := FindWishForMonth(s, m);
    if r.Some? {
      assert r.value in s;
    } else {
      forall w | w in wishes.Values && w.anniversaryId == anniversaryId ensures w.monthNumber != m {
        assert w in s;
        var i :| 0 <= i < |s| && s[i] == w;
      }
    }
  }

  /** The wish a run with `input` delivers, before looking at its flag. */
  function Target(wishes: map<Key, WishMessage>, input: WorkData): (r: Option<WishMessage>)
    ensures GetString(input, AnniversaryIdKey).None? ==> r.None?
    ensures r.Some? ==> && r.value in wishes.Values
                        && r.value.anniversaryId == GetString(input, AnniversaryIdKey).value
                        && r.value.monthNumber == MonthOf(input)
    ensures GetString(input, AnniversaryIdKey).Some? ==>
              (r.None? <==> forall w :: (w in wishes.Values && w.anniversaryId == GetString(input, AnniversaryIdKey).value)
                                          ==> w.monthNumber != MonthOf(input))
  {
    match GetString(input, AnniversaryIdKey)
    case None => None
    case Some(anniversaryId) =>
      var s := WishesForAnniversary(wishes, anniversaryId);
      FindWishForMonthNone(wishes, anniversaryId, s, MonthOf(input));
      FindWishForMonth(s, MonthOf(input))
  }

  // ---------------------------------------------------------------------
  // One run

  /** What a run reports to the scheduler. */
  datatype WorkResult = WorkSuccess | WorkFailure | WorkRetry

  /**
   * One run of the job against the wishes collection `wishes`: its result
   * and the collection it leaves. `fetchOk` says whether the wish query
   * succeeds and `writeOk` whether the flag write does.
   */
  function Tick(wishes: map<Key, WishMessage>, input: WorkData, fetchOk: bool, writeOk: bool, now: Instant)
    : (r: (WorkResult, map<Key, WishMessage>))
    ensures r.0 == WorkFailure <==> GetString(input, AnniversaryIdKey).None?
    ensures r.0 == WorkRetry <==> GetString(input, AnniversaryIdKey).Some? && !fetchOk
    ensures GetString(input, AnniversaryIdKey).Some? && fetchOk ==> r.0 == WorkSuccess
    ensures r.0 != WorkSuccess ==> r.1 == wishes
    ensures !writeOk ==> r.1 == wishes
    ensures Target(wishes, input).None? || Target(wishes, input).value.isDelivered ==> r.1 == wishes
  {
    match GetString(input, AnniversaryIdKey)
    case None => (WorkFailure, wishes)
    case Some(_) =>
      if !fetchOk then (WorkRetry, wishes)
      else
        (WorkSuccess, Deliver(wishes, Target(wishes, input), writeOk, now))
  }

  /** The flag write of a run that found `target`: only an undelivered wish is marked. */
  function Deliver(wishes: map<Key, WishMessage>, target: Option<WishMessage>, writeOk: bool, now: Instant)
    : (r: map<Key, WishMessage>)
    ensures !writeOk || target.None? || target.value.isDelivered ==> r == wishes
  {
    if writeOk && target.Some? && !target.value.isDelivered then MarkDelivery(wishes, target.value.id, true, now)
    else wishes
  }

  lemma StoredUnderOwnId(wishes: map<Key, WishMessage>, w: WishMessage)
    requires WishesWellKeyed(wishes)
    requires w in wishes.Values
    ensures w.id in wishes && wishes[w.id] == w
  {
    var k :| k in wishes && wishes[k] == w;
  }

  /**
   * A run that finds an undelivered target marks exactly that wish
   * delivered, at `now`, and leaves every other wish as it was.
   */
  lemma TickMarksOnlyTarget(wishes: map<Key, WishMessage>, input: WorkData, now: Instant)
    requires WishesWellKeyed(wishes)
    requires Target(wishes, input).Some? && !Target(wishes, input).value.isDelivered
    ensures var t := Target(wishes, input).value;
            && t.id in wishes && wishes[t.id] == t
            && Tick(wishes, input, true, true, now).1 == wishes[t.id := t.(isDelivered := true, deliveredAt := Some(now))]
            && WishesWellKeyed(Tick(wishes, input, true, true, now).1)
  {
    var t := Target(wishes, input).value;
    StoredUnderOwnId(wishes, t);
    MarkStoredWish(wishes, t.id, now);
  }

  /** A run keeps every wish under its own id. */
  lemma TickKeepsWellKeyed(wishes: map<Key, WishMessage>, input: WorkData, fetchOk: bool, writeOk: bool, now: Instant)
    requires WishesWellKeyed(wishes)
    ensures WishesWellKeyed(Tick(wishes, input, fetchOk, writeOk, now).1)
  {
    var t := Target(wishes, input);
    if GetString(input, AnniversaryIdKey).Some? && fetchOk && writeOk && t.Some? && !t.value.isDelivered {
      TickMarksOnlyTarget(wishes, input, now);
    }
  }

  // ---------------------------------------------------------------------
  // Idempotence

  /** `s` with every occurrence of `t` replaced by `u`. */
  function Replace(s: seq<WishMessage>, t: WishMessage, u: WishMessage): (r: seq<WishMessage>)
    ensures |r| == |s|
    ensures forall i :: 0 <= i < |s| ==> r[i] == if s[i] == t then u else s[i]
  {
    if s == [] then [] else [if s[0] == t then u else s[0]] + Replace(s[1..], t, u)
  }

  lemma ReplaceCons(x: WishMessage, s: seq<WishMessage>, t: WishMessage, u: WishMessage)
    ensures Replace([x] + s, t, u) == [if x == t then u else x] + Replace(s, t, u)
  {
    assert Replace([x] + s, t, u)[1..] == Replace(s, t, u);
  }

  lemma ReplaceTail(s: seq<WishMessage>, t: WishMessage, u: WishMessage)
    requires s != []
    ensures Replace(s, t, u) == [if s[0] == t then u else s[0]] + Replace(s[1..], t, u)
  {
    assert s == [s[0]] + s[1..];
    ReplaceCons(s[0], s[1..], t, u);
  }

  lemma ReplaceKeepsSorted(s: seq<WishMessage>, t: WishMessage, u: WishMessage)
    requires SortedByMonth(s) && t.monthNumber == u.monthNumber
    ensures SortedByMonth(Replace(s, t, u))
  {
    var r := Replace(s, t, u);
    forall i, j | 0 <= i < j < |r| ensures r[i].monthNumber <= r[j].monthNumber {
      assert r[i].monthNumber == s[i].monthNumber && r[j].monthNumber == s[j].monthNumber;
    }
  }

  lemma {:induction false} OfAnniversaryReplace(s: seq<WishMessage>, t: WishMessage, u: WishMessage, anniversaryId: Key)
    requires t.anniversaryId == u.anniversaryId
    ensures OfAnniversary(Replace(s, t, u), anniversaryId) == Replace(OfAnniversary(s, anniversaryId), t, u)
  {
    if s != [] {
      OfAnniversaryReplace(s[1..], t, u, anniversaryId);
      ReplaceTail(s, t, u);
      var r := Replace(s, t, u);
      assert r[1..] == Replace(s[1..], t, u);
      if s[0].anniversaryId == anniversaryId {
        ReplaceCons(s[0], OfAnniversary(s[1..], anniversaryId), t, u);
      }
    }
  }

  /** The inserted wish goes in front, before and after the replacement. */
  lemma InsertReplaceFront(w: WishMessage, s: seq<WishMessage>, t: WishMessage, u: WishMessage)
    requires SortedByMonth(s) && t.monthNumber == u.monthNumber
    requires s == [] || w.monthNumber <= s[0].monthNumber
    requires SortedByMonth(Replace(s, t, u))
    ensures InsertByMonth(if w == t then u else w, Replace(s, t, u)) == Replace(InsertByMonth(w, s), t, u)
  {
    ReplaceCons(w, s, t, u);
    if s != [] {
      assert Replace(s, t, u)[0].monthNumber == s[0].monthNumber;
    }
  }

  lemma {:induction false} InsertReplace(w: WishMessage, s: seq<WishMessage>, t: WishMessage, u: WishMessage)
    requires SortedByMonth(s) && t.monthNumber == u.monthNumber
    ensures SortedByMonth(Replace(s, t, u))
    ensures InsertByMonth(if w == t then u else w, Replace(s, t, u)) == Replace(InsertByMonth(w, s), t, u)
  {
    ReplaceKeepsSorted(s, t, u);
    if s == [] || w.monthNumber <= s[0].monthNumber {
      InsertReplaceFront(w, s, t, u);
    } else {
      InsertReplace(w, s[1..], t, u);
      InsertReplaceStep(w, s, t, u);
    }
  }

  /** The inserted wish goes past the head, before and after the replacement. */
  lemma InsertReplaceStep(w: WishMessage, s: seq<WishMessage>, t: WishMessage, u: WishMessage)
    requires SortedByMonth(s) && t.monthNumber == u.monthNumber
    requires s != [] && w.monthNumber > s[0].monthNumber
    requires SortedByMonth(Replace(s, t, u)) && SortedByMonth(s[1..]) && SortedByMonth(Replace(s[1..], t, u))
    requires InsertByMonth(if w == t then u else w, Replace(s[1..], t, u)) == Replace(InsertByMonth(w, s[1..]), t, u)
    ensures InsertByMonth(if w == t then u else w, Replace(s, t, u)) == Replace(InsertByMonth(w, s), t, u)
  {
    var r := Replace(s, t, u);
    var w' := if w == t then u else w;
    var s0' := if s[0] == t then u else s[0];
    ReplaceTail(s, t, u);
    assert r[0] == s0' && r[1..] == Replace(s[1..], t, u);
    InsertByMonthPast(w', r);
    InsertByMonthPast(w, s);
    ReplaceCons(s[0], InsertByMonth(w, s[1..]), t, u);
  }

  lemma {:induction false} SortReplace(s: seq<WishMessage>, t: WishMessage, u: WishMessage)
    requires t.monthNumber == u.monthNumber
    ensures SortByMonth(Replace(s, t, u)) == Replace(SortByMonth(s), t, u)
  {
    if s != [] {
      ReplaceTail(s, t, u);
      var r := Replace(s, t, u);
      assert r[1..] == Replace(s[1..], t, u);
      SortReplace(s[1..], t, u);
      InsertReplace(s[0], SortByMonth(s[1..]), t, u);
    }
  }

  lemma {:induction false} FirstIndexReplace(s: seq<WishMessage>, t: WishMessage, u: WishMessage, m: int)
    requires t.monthNumber == u.monthNumber
    ensures FirstIndexOfMonth(Replace(s, t, u), m) == FirstIndexOfMonth(s, m)
  {
    if s != [] {
      ReplaceTail(s, t, u);
      var r := Replace(s, t, u);
      assert r[0].monthNumber == s[0].monthNumber && r[1..] == Replace(s[1..], t, u);
      FirstIndexReplace(s[1..], t, u, m);
    }
  }

  lemma {:induction false} ValuesAtReplace(m: map<Key, WishMessage>, ks: seq<Key>, k: Key, u: WishMessage)
    requires k in m && forall key :: key in ks ==> key in m
    requires forall key :: key in ks && key != k ==> m[key] != m[k]
    ensures ValuesAt(m[k := u], ks) == Replace(ValuesAt(m, ks), m[k], u)
  {
    if ks != [] {
      ValuesAtReplace(m, ks[1..], k, u);
      var v := ValuesAt(m, ks);
      ReplaceTail(v, m[k], u);
      assert v[1..] == ValuesAt(m, ks[1..]);
      assert ValuesAt(m[k := u], ks) == [m[k := u][ks[0]]] + ValuesAt(m[k := u], ks[1..]);
    }
  }

  /** Replacing one stored wish by another replaces it in the snapshot. */
  lemma ChildrenReplace(wishes: map<Key, WishMessage>, k: Key, u: WishMessage)
    requires WishesWellKeyed(wishes) && k in wishes
    ensures ChildrenOf(wishes[k := u]) == Replace(ChildrenOf(wishes), wishes[k], u)
  {
    var after := wishes[k := u];
    assert after.Keys == wishes.Keys;
    var ks := SortedKeys(wishes.Keys);
    assert SortedKeys(after.Keys) == ks;
    forall key | key in ks && key != k ensures wishes[key] != wishes[k] {
      assert wishes[key].id == key && wishes[k].id == k;
    }
    ValuesAtReplace(wishes, ks, k, u);
  }

  /**
   * Changing a wish without changing its anniversary or its month changes
   * it in place in the anniversary's sorted list.
   */
  lemma WishesForAnniversaryReplace(wishes: map<Key, WishMessage>, k: Key, u: WishMessage, anniversaryId: Key)
    requires WishesWellKeyed(wishes) && k in wishes
    requires u.anniversaryId == wishes[k].anniversaryId && u.monthNumber == wishes[k].monthNumber
    ensures WishesForAnniversary(wishes[k := u], anniversaryId)
            == Replace(WishesForAnniversary(wishes, anniversaryId), wishes[k], u)
  {
    ChildrenReplace(wishes, k, u);
    OfAnniversaryReplace(ChildrenOf(wishes), wishes[k], u, anniversaryId);
    SortReplace(OfAnniversary(ChildrenOf(wishes), anniversaryId), wishes[k], u);
  }

  /**
   * Running the job a second time with the same input, after a run whose
   * query and write succeeded, leaves the wishes as the first run left
   * them, whatever the second run's calls do.
   */
  lemma TickIdempotent(wishes: map<Key, WishMessage>, input: WorkData, now1: Instant,
                       fetchOk: bool, writeOk: bool, now2: Instant)
    requires WishesWellKeyed(wishes)
    ensures var after := Tick(wishes, input, true, true, now1).1;
            Tick(after, input, fetchOk, writeOk, now2).1 == after
  {
    var t := Target(wishes, input);
    if t.Some? && !t.value.isDelivered {
      var anniversaryId, m := GetString(input, AnniversaryIdKey).value, MonthOf(input);
      var k := t.value.id;
      var u := t.value.(isDelivered := true, deliveredAt := Some(now1));
      StoredUnderOwnId(wishes, t.value);
      var s := WishesForAnniversary(wishes, anniversaryId);
      WishesForAnniversaryReplace(wishes, k, u, anniversaryId);
      FirstIndexReplace(s, t.value, u, m);
      assert Target(wishes[k := u], input) == Some(u);
    }
  }

  // ---------------------------------------------------------------------
  // The worker

  class AnniversaryReminderWorker {
    const inputData: WorkData
    const repository: AnniversaryRepository

    constructor (inputData: WorkData, repository: AnniversaryRepository)
      ensures this.inputData == inputData && this.repository == repository
    {
      this.inputData := inputData;
      this.repository := repository;
    }

    /**
     * `doWork`: one run. `fetchOk` and `writeOk` say whether the wish query
     * and the flag write succeed; a failed write is not reported.
     */
    method DoWork(fetchOk: bool, writeOk: bool, now: Instant) returns (result: WorkResult)
      modifies repository
      ensures (result, repository.wishes) == Tick(old(repository.wishes), inputData, fetchOk, writeOk, now)
      ensures repository.anniversaries == old(repository.anniversaries)
      ensures repository.users == old(repository.users)
      ensures repository.deliveryStatus == old(repository.deliveryStatus)
      ensures old(repository.Valid()) ==> repository.Valid()
    {
      var anniversaryId := GetString(inputData, AnniversaryIdKey);
      if anniversaryId.None? {
        return WorkFailure;
      }
      var monthNumber := GetInt(inputData, MonthNumberKey, 1);

      var wishesResult := repository.GetWishesForAnniversary(anniversaryId.value, fetchOk);
      if wishesResult.Failure? {
        return WorkRetry;
      }

      var targetWish := FindWishForMonth(wishesResult.value, monthNumber);
      if targetWish.Some? && !targetWish.value.isDelivered {
        repository.UpdateWishDeliveryStatus(targetWish.value.id, true, now, writeOk);
        if old(repository.Valid()) {
          TickKeepsWellKeyed(old(repository.wishes), inputData, fetchOk, writeOk, now);
        }
        return WorkSuccess;
      }
      return WorkSuccess;
    }
  }
}
