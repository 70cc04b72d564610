/**
 * The anniversary repository over an abstract key store. The store holds
 * four collections keyed by id: anniversaries, users, wishes and delivery
 * statuses. Every call that can fail takes an `ok` flag standing for the
 * store's (or the key generator's) success; a failed call writes nothing.
 *
 * The pure part: the pairing-code alphabet, the per-anniversary filter and
 * the stable sort by month shared by the pull query and the snapshot
 * listener, the lookup by code, and the record updates each write performs.
 */
module Repository {
  import opened Model
  import opened KeyOrder

  // ---------------------------------------------------------------------
  // Pairing codes

  const CoupleCodeChars: string := "ABCDEFGHIJKLMNOPQRSTUVWXYZ0123456789"
  const CoupleCodeLength: nat := 6

  predicate IsCoupleCode(s: string)
  {
    |s| == CoupleCodeLength && forall i :: 0 <= i < |s| ==> s[i] in CoupleCodeChars
  }

  /** Six symbols, each an independent choice from the 36-symbol alphabet. */
  method GenerateCoupleCode() returns (code: string)
    ensures IsCoupleCode(code)
  {
    code := "";
    for i := 0 to CoupleCodeLength
      invariant |code| == i
      invariant forall j :: 0 <= j < i ==> code[j] in CoupleCodeChars
    {
      assert CoupleCodeChars[0] in CoupleCodeChars;
      var c :| c in CoupleCodeChars;
      code := code + [c];
    }
  }

  // ---------------------------------------------------------------------
  // Fresh keys (what `push().key` hands out)

  ghost function MaxKeyLength(ks: set<Key>): (n: nat)
    ensures forall k :: k in ks ==> |k| <= n
    decreases ks
  {
    if ks == {} then 0
    else
      var k :| k in ks;
      var n := MaxKeyLength(ks - {k});
      if |k| > n then |k| else n
  }

  lemma FreshKeyExists(ks: set<Key>)
    ensures exists k :: k != "" && k !in ks
  {
    var k := seq(MaxKeyLength(ks) + 1, _ => '-');
    assert k != "" && k !in ks;
  }

  /** A non-empty key that no child of the collection uses yet. */
  method PushKey(ks: set<Key>) returns (k: Key)
    ensures k != "" && k !in ks
  {
    FreshKeyExists(ks);
    k :| k != "" && k !in ks;
  }

  // ---------------------------------------------------------------------
  // Filtering and sorting wishes

  predicate SortedByMonth(s: seq<WishMessage>)
  {
    forall i, j :: 0 <= i < j < |s| ==> s[i].monthNumber <= s[j].monthNumber
  }

  lemma SortedCons(x: WishMessage, t: seq<WishMessage>)
    requires SortedByMonth(t)
    requires t != [] ==> x.monthNumber <= t[0].monthNumber
    ensures SortedByMonth([x] + t)
  {
    forall i, j | 0 <= i < j < |[x] + t|
      ensures ([x] + t)[i].monthNumber <= ([x] + t)[j].monthNumber
    {
      assert ([x] + t)[j] == t[j - 1];
      if i > 0 {
        assert ([x] + t)[i] == t[i - 1];
      }
    }
  }

  lemma SortedTail(s: seq<WishMessage>)
    requires SortedByMonth(s) && s != []
    ensures SortedByMonth(s[1..])
  {
    forall i, j | 0 <= i < j < |s| - 1 ensures s[1..][i].monthNumber <= s[1..][j].monthNumber {
      assert s[1..][i] == s[i + 1] && s[1..][j] == s[j + 1];
    }
  }

  /** Inserts `w` before the first element whose month is not smaller. */
  function InsertByMonth(w: WishMessage, s: seq<WishMessage>): (r: seq<WishMessage>)
    requires SortedByMonth(s)
    ensures SortedByMonth(r)
    ensures |r| == |s| + 1
    ensures r[0] == w || (s != [] && r[0] == s[0])
  {
    if s == [] then [w]
    else if w.monthNumber <= s[0].monthNumber then
      SortedCons(w, s);
      [w] + s
    else
      SortedTail(s);
      var t := InsertByMonth(w, s[1..]);
      SortedCons(s[0], t);
      [s[0]] + t
  }

  /** A wish of a later month than the head goes past it. */
  lemma InsertByMonthPast(w: WishMessage, s: seq<WishMessage>)
    requires SortedByMonth(s) && s != [] && w.monthNumber > s[0].monthNumber
    ensures SortedByMonth(s[1..])
    ensures InsertByMonth(w, s) == [s[0]] + InsertByMonth(w, s[1..])
  {
    SortedTail(s);
  }

  lemma {:induction false} InsertByMonthPermutes(w: WishMessage, s: seq<WishMessage>)
    requires SortedByMonth(s)
    ensures multiset(InsertByMonth(w, s)) == multiset(s) + multiset{w}
  {
    if s != [] && w.monthNumber > s[0].monthNumber {
      SortedTail(s);
      InsertByMonthPermutes(w, s[1..]);
      assert s == [s[0]] + s[1..];
      assert InsertByMonth(w, s) == [s[0]] + InsertByMonth(w, s[1..]);
    }
  }

  /** `sortedBy { it.monthNumber }`: a stable sort by month. */
  function SortByMonth(s: seq<WishMessage>): (r: seq<WishMessage>)
    ensures SortedByMonth(r)
    ensures |r| == |s|
  {
    if s == [] then []
    else InsertByMonth(s[0], SortByMonth(s[1..]))
  }

  lemma {:induction false} SortByMonthPermutes(s: seq<WishMessage>)
    ensures multiset(SortByMonth(s)) == multiset(s)
  {
    if s != [] {
      SortByMonthPermutes(s[1..]);
      InsertByMonthPermutes(s[0], SortByMonth(s[1..]));
      assert s == [s[0]] + s[1..];
    }
  }

  /** The elements of `s` whose month is `m`, in order. */
  function WithMonth(s: seq<WishMessage>, m: int): seq<WishMessage>
  {
    if s == [] then []
    else (if s[0].monthNumber == m then [s[0]] else []) + WithMonth(s[1..], m)
  }

  lemma WithMonthCons(x: WishMessage, s: seq<WishMessage>, m: int)
    ensures WithMonth([x] + s, m) == (if x.monthNumber == m then [x] else []) + WithMonth(s, m)
  {
    assert ([x] + s)[0] == x && ([x] + s)[1..] == s;
  }

  lemma {:induction false} InsertWithMonth(w: WishMessage, s: seq<WishMessage>, m: int)
    requires SortedByMonth(s)
    ensures WithMonth(InsertByMonth(w, s), m)
            == (if w.monthNumber == m then [w] else []) + WithMonth(s, m)
  {
    if s == [] || w.monthNumber <= s[0].monthNumber {
      assert InsertByMonth(w, s) == [w] + s;
      WithMonthCons(w, s, m);
    } else {
      SortedTail(s);
      InsertWithMonth(w, s[1..], m);
      var t := InsertByMonth(w, s[1..]);
      assert InsertByMonth(w, s) == [s[0]] + t;
      assert [s[0]] + s[1..] == s;
      WithMonthPassOver(w, s[0], s[1..], t, m);
    }
  }

  /**
   * Placing `x` in front is the same before and after `w` is inserted
   * into its tail, when `w` belongs strictly after `x`.
   */
  lemma WithMonthPassOver(w: WishMessage, x: WishMessage, s: seq<WishMessage>, t: seq<WishMessage>, m: int)
    requires w.monthNumber > x.monthNumber
    requires WithMonth(t, m) == (if w.monthNumber == m then [w] else []) + WithMonth(s, m)
    ensures WithMonth([x] + t, m) == (if w.monthNumber == m then [w] else []) + WithMonth([x] + s, m)
  {
    WithMonthCons(x, t, m);
    WithMonthCons(x, s, m);
    if x.monthNumber == m {
      assert WithMonth(t, m) == WithMonth(s, m);
    }
  }

  /** Stability: wishes of the same month keep their relative order. */
  lemma {:induction false} SortByMonthIsStable(s: seq<WishMessage>, m: int)
    ensures WithMonth(SortByMonth(s), m) == WithMonth(s, m)
  {
    if s != [] {
      SortByMonthIsStable(s[1..], m);
      InsertWithMonth(s[0], SortByMonth(s[1..]), m);
      WithMonthCons(s[0], s[1..], m);
      assert [s[0]] + s[1..] == s;
    }
  }

  /** `filter { it.anniversaryId == anniversaryId }`. */
  function OfAnniversary(s: seq<WishMessage>, anniversaryId: Key): (r: seq<WishMessage>)
    ensures forall w :: w in r <==> w in s && w.anniversaryId == anniversaryId
    ensures |r| <= |s|
  {
    if s == [] then []
    else
      var t := OfAnniversary(s[1..], anniversaryId);
      assert s == [s[0]] + s[1..];
      if s[0].anniversaryId == anniversaryId then [s[0]] + t else t
  }

  /** The filter keeps every copy of a wish of the anniversary and no copy of any other wish. */
  lemma {:induction false} OfAnniversaryCounts(s: seq<WishMessage>, anniversaryId: Key)
    ensures forall w :: multiset(OfAnniversary(s, anniversaryId))[w]
                        == if w.anniversaryId == anniversaryId then multiset(s)[w] else 0
  {
    if s != [] {
      OfAnniversaryCounts(s[1..], anniversaryId);
      OfAnniversaryCons(s[0], s[1..], anniversaryId);
      assert s == [s[0]] + s[1..];
    }
  }

  lemma OfAnniversaryCons(x: WishMessage, s: seq<WishMessage>, anniversaryId: Key)
    ensures OfAnniversary([x] + s, anniversaryId)
            == (if x.anniversaryId == anniversaryId then [x] else []) + OfAnniversary(s, anniversaryId)
  {
    assert ([x] + s)[0] == x && ([x] + s)[1..] == s;
  }

  /** The filter keeps order: filtering a concatenation concatenates the filtered parts. */
  lemma {:induction false} OfAnniversaryAppend(a: seq<WishMessage>, b: seq<WishMessage>, anniversaryId: Key)
    ensures OfAnniversary(a + b, anniversaryId) == OfAnniversary(a, anniversaryId) + OfAnniversary(b, anniversaryId)
  {
    if a == [] {
      assert a + b == b;
    } else {
      var ab := a + b;
      assert ab != [] && ab[0] == a[0];
      assert ab[1..] == a[1..] + b;
      OfAnniversaryAppend(a[1..], b, anniversaryId);
      var head := if a[0].anniversaryId == anniversaryId then [a[0]] else [];
      var p, q := OfAnniversary(a[1..], anniversaryId), OfAnniversary(b, anniversaryId);
      assert OfAnniversary(ab, anniversaryId) == head + OfAnniversary(ab[1..], anniversaryId);
      assert OfAnniversary(a, anniversaryId) == head + p;
      assert head + (p + q) == (head + p) + q;
    }
  }

  /**
   * The wishes of one anniversary, sorted by month; ties keep key order.
   * Both the pull query and the snapshot listener produce this list.
   */
  function WishesForAnniversary(wishes: map<Key, WishMessage>, anniversaryId: Key): (r: seq<WishMessage>)
    ensures SortedByMonth(r)
    ensures forall i :: 0 <= i < |r| ==> r[i].anniversaryId == anniversaryId
    ensures forall w :: w in r <==> w in wishes.Values && w.anniversaryId == anniversaryId
    ensures multiset(r) == multiset(OfAnniversary(ChildrenOf(wishes), anniversaryId))
  {
    var s := OfAnniversary(ChildrenOf(wishes), anniversaryId);
    var r := SortByMonth(s);
    SortByMonthPermutes(s);
    assert forall w :: w in r <==> w in s by {
      forall w ensures w in r <==> w in s {
        assert w in r <==> w in multiset(r);
        assert w in s <==> w in multiset(s);
      }
    }
    forall i | 0 <= i < |r| ensures r[i].anniversaryId == anniversaryId {
      assert r[i] in r;
    }
    r
  }

  /** Wishes of one month come out in the order of their keys. */
  lemma WishesForAnniversaryTiesInKeyOrder(wishes: map<Key, WishMessage>, anniversaryId: Key, m: int)
    ensures WithMonth(WishesForAnniversary(wishes, anniversaryId), m)
            == WithMonth(OfAnniversary(ChildrenOf(wishes), anniversaryId), m)
  {
    SortByMonthIsStable(OfAnniversary(ChildrenOf(wishes), anniversaryId), m);
  }

  /**
   * The lists a subscription to one anniversary's wishes emits while the
   * wishes collection goes through `snapshots`: one list per snapshot, each
   * filtered out of the whole collection.
   */
  function ObserveWishes(snapshots: seq<map<Key, WishMessage>>, anniversaryId: Key): (r: seq<seq<WishMessage>>)
    ensures |r| == |snapshots|
  {
    if snapshots == [] then []
    else [WishesForAnniversary(snapshots[0], anniversaryId)] + ObserveWishes(snapshots[1..], anniversaryId)
  }

  /**
   * The `i`-th emission holds exactly the anniversary's wishes in the
   * `i`-th snapshot, sorted by month.
   */
  lemma {:induction false} ObservedEmission(snapshots: seq<map<Key, WishMessage>>, anniversaryId: Key, i: nat)
    requires i < |snapshots|
    ensures var e := ObserveWishes(snapshots, anniversaryId)[i];
            && e == WishesForAnniversary(snapshots[i], anniversaryId)
            && SortedByMonth(e)
            && forall w :: w in e <==> w in snapshots[i].Values && w.anniversaryId == anniversaryId
  {
    if i > 0 {
      ObservedEmission(snapshots[1..], anniversaryId, i - 1);
    }
  }

  // ---------------------------------------------------------------------
  // Lookup by pairing code

  /** The first index of `s` holding a record with the code, or |s|. */
  function FirstIndexWithCode(s: seq<Anniversary>, code: string): (i: nat)
    ensures i <= |s|
    ensures forall j :: 0 <= j < i ==> s[j].coupleCode != code
    ensures i < |s| ==> s[i].coupleCode == code
  {
    if s == [] then 0
    else if s[0].coupleCode == code then 0
    else 1 + FirstIndexWithCode(s[1..], code)
  }

  /** In a strictly increasing list of keys, a listed key below `ks[i]` sits before `i`. */
  lemma IndexBelow(ks: seq<Key>, i: nat, k: Key) returns (p: nat)
    requires forall a, b :: 0 <= a < b < |ks| ==> KeyLess(ks[a], ks[b])
    requires i < |ks| && k in ks && KeyLess(k, ks[i])
    ensures p < i && ks[p] == k
  {
    p :| 0 <= p < |ks| && ks[p] == k;
    if p > i {
      assert KeyLess(ks[i], ks[p]);
      KeyLeqAntisymmetric(ks[i], k);
    }
  }

  lemma FirstWithCodeIsLeast(anniversaries: map<Key, Anniversary>, code: string, i: nat)
    requires i < |anniversaries|
    requires forall j :: 0 <= j < i ==> ChildrenOf(anniversaries)[j].coupleCode != code
    ensures forall k :: k in anniversaries && KeyLess(k, SortedKeys(anniversaries.Keys)[i])
                        ==> anniversaries[k].coupleCode != code
  {
    var ks := SortedKeys(anniversaries.Keys);
    var children := ChildrenOf(anniversaries);
    forall k | k in anniversaries && KeyLess(k, ks[i])
      ensures anniversaries[k].coupleCode != code
    {
      var p := IndexBelow(ks, i, k);
      assert children[p] == anniversaries[k];
    }
  }

  lemma NoChildWithCode(anniversaries: map<Key, Anniversary>, code: string)
    requires forall j :: 0 <= j < |anniversaries| ==> ChildrenOf(anniversaries)[j].coupleCode != code
    ensures forall k :: k in anniversaries ==> anniversaries[k].coupleCode != code
  {
    var ks := SortedKeys(anniversaries.Keys);
    var children := ChildrenOf(anniversaries);
    forall k | k in anniversaries ensures anniversaries[k].coupleCode != code {
      var p :| 0 <= p < |ks| && ks[p] == k;
      assert children[p] == anniversaries[k];
    }
  }

  /**
   * `orderByChild("coupleCode").equalTo(code).limitToFirst(1)`: the least
   * key holding exactly that code (no case folding), if any.
   */
  function FindKeyByCode(anniversaries: map<Key, Anniversary>, code: string): (r: Option<Key>)
    ensures r.Some? ==> r.value in anniversaries && anniversaries[r.value].coupleCode == code
    ensures r.Some? ==> forall k :: k in anniversaries && KeyLess(k, r.value)
                                    ==> anniversaries[k].coupleCode != code
    ensures r.None? <==> forall k :: k in anniversaries ==> anniversaries[k].coupleCode != code
  {
    var ks := SortedKeys(anniversaries.Keys);
    var children := ChildrenOf(anniversaries);
    var i := FirstIndexWithCode(children, code);
    if i < |children| then
      FirstWithCodeIsLeast(anniversaries, code, i);
      Some(ks[i])
    else
      NoChildWithCode(anniversaries, code);
      None
  }

  /** The record a code lookup returns. */
  function FindByCode(anniversaries: map<Key, Anniversary>, code: string): (r: Option<Anniversary>)
    ensures r.Some? ==> r.value in anniversaries.Values && r.value.coupleCode == code
    ensures r.None? <==> forall k :: k in anniversaries ==> anniversaries[k].coupleCode != code
  {
    match FindKeyByCode(anniversaries, code)
    case Some(k) => Some(anniversaries[k])
    case None => None
  }

  /** The lookup depends only on which key holds which code. */
  lemma FindKeyByCodeDependsOnCodesOnly(m1: map<Key, Anniversary>, m2: map<Key, Anniversary>, code: string)
    requires m1.Keys == m2.Keys
    requires forall k :: k in m1 ==> m1[k].coupleCode == m2[k].coupleCode
    ensures FindKeyByCode(m1, code) == FindKeyByCode(m2, code)
  {
    var r1, r2 := FindKeyByCode(m1, code), FindKeyByCode(m2, code);
    if r1.Some? && r2.Some? {
      KeyLeqTotal(r1.value, r2.value);
    }
  }

  // ---------------------------------------------------------------------
  // The record each write leaves behind. A write to a key that holds no
  // record creates one from the defaults with just the written fields.

  /** `child(anniversaryId).child("girlId").setValue(girlId)`. */
  function LinkGirl(anniversaries: map<Key, Anniversary>, anniversaryId: Key, girlId: Key, now: Instant)
    : (r: map<Key, Anniversary>)
    ensures r.Keys == anniversaries.Keys + {anniversaryId}
    ensures r[anniversaryId].girlId == girlId
    ensures anniversaryId in anniversaries ==> r[anniversaryId] == anniversaries[anniversaryId].(girlId := girlId)
    ensures anniversaryId !in anniversaries ==> r[anniversaryId] == DefaultAnniversary(now).(girlId := girlId)
    ensures forall k :: k in anniversaries && k != anniversaryId ==> r[k] == anniversaries[k]
  {
    var base := if anniversaryId in anniversaries then anniversaries[anniversaryId] else DefaultAnniversary(now);
    anniversaries[anniversaryId := base.(girlId := girlId)]
  }

  /** Linking a stored record adds no key and changes no code. */
  lemma LinkGirlKeepsCodes(anniversaries: map<Key, Anniversary>, anniversaryId: Key, girlId: Key, now: Instant)
    requires anniversaryId in anniversaries
    ensures var r := LinkGirl(anniversaries, anniversaryId, girlId, now);
            && r.Keys == anniversaries.Keys
            && forall k :: k in anniversaries ==> r[k].coupleCode == anniversaries[k].coupleCode
  {
    var r := LinkGirl(anniversaries, anniversaryId, girlId, now);
    assert r.Keys == anniversaries.Keys;
    forall k | k in anniversaries ensures r[k].coupleCode == anniversaries[k].coupleCode {
      if k != anniversaryId {
        assert r[k] == anniversaries[k];
      }
    }
  }

  /** Linking a stored record keeps every record under its own id. */
  lemma LinkGirlKeepsWellKeyed(anniversaries: map<Key, Anniversary>, anniversaryId: Key, girlId: Key, now: Instant)
    requires AnniversariesWellKeyed(anniversaries) && anniversaryId in anniversaries
    ensures AnniversariesWellKeyed(LinkGirl(anniversaries, anniversaryId, girlId, now))
  {
    var r := LinkGirl(anniversaries, anniversaryId, girlId, now);
    forall k | k in r ensures r[k].id == k {
      if k != anniversaryId {
        assert r[k] == anniversaries[k];
      }
    }
  }

  /** `updateChildren(isDelivered, deliveredAt)` on one wish. */
  function MarkDelivery(wishes: map<Key, WishMessage>, wishId: Key, isDelivered: bool, now: Instant)
    : (r: map<Key, WishMessage>)
    ensures r.Keys == wishes.Keys + {wishId}
    ensures r[wishId].isDelivered == isDelivered
    ensures r[wishId].deliveredAt == if isDelivered then Some(now) else None
    ensures wishId in wishes ==>
              r[wishId] == wishes[wishId].(isDelivered := r[wishId].isDelivered, deliveredAt := r[wishId].deliveredAt)
    ensures wishId !in wishes ==>
              r[wishId] == DefaultWishMessage(now).(isDelivered := r[wishId].isDelivered, deliveredAt := r[wishId].deliveredAt)
    ensures forall k :: k in wishes && k != wishId ==> r[k] == wishes[k]
  {
    var base := if wishId in wishes then wishes[wishId] else DefaultWishMessage(now);
    wishes[wishId := base.(isDelivered := isDelivered, deliveredAt := if isDelivered then Some(now) else None)]
  }

  /** Marking a stored wish delivered changes only its two fields and keeps every wish under its own id. */
  lemma MarkStoredWish(wishes: map<Key, WishMessage>, wishId: Key, now: Instant)
    requires WishesWellKeyed(wishes) && wishId in wishes
    ensures var r := MarkDelivery(wishes, wishId, true, now);
            && r == wishes[wishId := wishes[wishId].(isDelivered := true, deliveredAt := Some(now))]
            && WishesWellKeyed(r)
  {
    var r := MarkDelivery(wishes, wishId, true, now);
    forall k | k in r ensures r[k].id == k {
      if k != wishId {
        assert r[k] == wishes[k];
      }
    }
  }

  /** Setting or clearing the flag of a stored wish keeps every wish under its own id. */
  lemma MarkKeepsWellKeyed(wishes: map<Key, WishMessage>, wishId: Key, isDelivered: bool, now: Instant)
    requires WishesWellKeyed(wishes) && wishId in wishes
    ensures WishesWellKeyed(MarkDelivery(wishes, wishId, isDelivered, now))
  {
    var r := MarkDelivery(wishes, wishId, isDelivered, now);
    forall k | k in r ensures r[k].id == k {
      if k != wishId {
        assert r[k] == wishes[k];
      }
    }
  }

  /** `setValue(status)` under the status's wish id: replaces any earlier status. */
  function PutStatus(statuses: map<Key, DeliveryStatus>, status: DeliveryStatus): (r: map<Key, DeliveryStatus>)
    ensures r.Keys == statuses.Keys + {status.wishId}
    ensures r[status.wishId] == status
    ensures forall k :: k in statuses && k != status.wishId ==> r[k] == statuses[k]
  {
    statuses[status.wishId := status]
  }

  /** A second status for the same wish wins over the first. */
  lemma LastStatusWins(statuses: map<Key, DeliveryStatus>, first: DeliveryStatus, second: DeliveryStatus)
    requires first.wishId == second.wishId
    ensures PutStatus(PutStatus(statuses, first), second) == PutStatus(statuses, second)
  {
  }

  function UpdatedText(updates: map<string, string>, field: string, current: string): string
  {
    if field in updates then updates[field] else current
  }

  function UpdatedOptional(updates: map<string, string>, field: string, current: Option<string>): Option<string>
  {
    if field in updates then Some(updates[field]) else current
  }

  /** The role a stored role name decodes to; any other name leaves the role as it was. */
  function UpdatedRole(updates: map<string, string>, current: UserRole): (r: UserRole)
    ensures "role" in updates && updates["role"] == "BOY" ==> r == BOY
    ensures "role" in updates && updates["role"] == "GIRL" ==> r == GIRL
    ensures !("role" in updates && (updates["role"] == "BOY" || updates["role"] == "GIRL")) ==> r == current
  {
    if "role" in updates && updates["role"] == "BOY" then BOY
    else if "role" in updates && updates["role"] == "GIRL" then GIRL
    else current
  }

  /**
   * `updateChildren(updates)` on a user, for updates of its text-valued
   * fields (the role by its name); a name that is no such field changes
   * nothing.
   */
  function ApplyUserUpdates(u: UserProfile, updates: map<string, string>): (r: UserProfile)
    ensures "id" in updates ==> r.id == updates["id"]
    ensures "id" !in updates ==> r.id == u.id
    ensures "name" in updates ==> r.name == updates["name"]
    ensures "name" !in updates ==> r.name == u.name
    ensures "email" in updates ==> r.email == Some(updates["email"])
    ensures "email" !in updates ==> r.email == u.email
    ensures "profileImageUrl" in updates ==> r.profileImageUrl == Some(updates["profileImageUrl"])
    ensures "profileImageUrl" !in updates ==> r.profileImageUrl == u.profileImageUrl
    ensures "anniversaryId" in updates ==> r.anniversaryId == Some(updates["anniversaryId"])
    ensures "anniversaryId" !in updates ==> r.anniversaryId == u.anniversaryId
    ensures "deviceToken" in updates ==> r.deviceToken == Some(updates["deviceToken"])
    ensures "deviceToken" !in updates ==> r.deviceToken == u.deviceToken
    ensures r.role == UpdatedRole(updates, u.role)
    ensures r.isOnline == u.isOnline && r.lastSeen == u.lastSeen && r.createdAt == u.createdAt
  {
    u.(id := UpdatedText(updates, "id", u.id),
       role := UpdatedRole(updates, u.role),
       name := UpdatedText(updates, "name", u.name),
       email := UpdatedOptional(updates, "email", u.email),
       profileImageUrl := UpdatedOptional(updates, "profileImageUrl", u.profileImageUrl),
       anniversaryId := UpdatedOptional(updates, "anniversaryId", u.anniversaryId),
       deviceToken := UpdatedOptional(updates, "deviceToken", u.deviceToken))
  }

  function UpdateUser(users: map<Key, UserProfile>, userId: Key, updates: map<string, string>, now: Instant)
    : (r: map<Key, UserProfile>)
    ensures r.Keys == users.Keys + {userId}
    ensures userId in users ==> r[userId] == ApplyUserUpdates(users[userId], updates)
    ensures userId !in users ==> r[userId] == ApplyUserUpdates(DefaultUserProfile(now), updates)
    ensures forall k :: k in users && k != userId ==> r[k] == users[k]
  {
    var base := if userId in users then users[userId] else DefaultUserProfile(now);
    users[userId := ApplyUserUpdates(base, updates)]
  }

  /** Writing the same updates twice leaves what writing them once leaves. */
  lemma UpdateUserIdempotent(users: map<Key, UserProfile>, userId: Key, updates: map<string, string>,
                             now1: Instant, now2: Instant)
    ensures UpdateUser(UpdateUser(users, userId, updates, now1), userId, updates, now2)
            == UpdateUser(users, userId, updates, now1)
  {
    var once := UpdateUser(users, userId, updates, now1);
    var u := once[userId];
    assert ApplyUserUpdates(u, updates) == u;
  }

  /** Every anniversary is stored under its own id. */
  ghost predicate AnniversariesWellKeyed(anniversaries: map<Key, Anniversary>)
  {
    forall k :: k in anniversaries ==> anniversaries[k].id == k
  }

  /** Every wish is stored under its own id. */
  ghost predicate WishesWellKeyed(wishes: map<Key, WishMessage>)
  {
    forall k :: k in wishes ==> wishes[k].id == k
  }

  // ---------------------------------------------------------------------
  // The repository

  class AnniversaryRepository {
    var anniversaries: map<Key, Anniversary>
    var users: map<Key, UserProfile>
    var wishes: map<Key, WishMessage>
    var deliveryStatus: map<Key, DeliveryStatus>

    /** Every anniversary and every wish is stored under its own id. */
    ghost predicate Valid()
      reads this
    {
      AnniversariesWellKeyed(anniversaries) && WishesWellKeyed(wishes)
    }

    constructor ()
      ensures anniversaries == map[] && users == map[] && wishes == map[] && deliveryStatus == map[]
      ensures Valid()
    {
      anniversaries, users, wishes, deliveryStatus := map[], map[], map[], map[];
    }

    /** Stores `anniversary` under a fresh key, with that key as id and a new pairing code. */
    method CreateAnniversary(anniversary: Anniversary, ok: bool) returns (r: Result<Anniversary>)
      modifies this
      ensures r.Success? <==> ok
      ensures ok ==> && r.value.id != "" && r.value.id !in old(anniversaries)
                     && IsCoupleCode(r.value.coupleCode)
                     && r.value == anniversary.(id := r.value.id, coupleCode := r.value.coupleCode)
                     && anniversaries == old(anniversaries)[r.value.id := r.value]
      ensures !ok ==> anniversaries == old(anniversaries)
      ensures users == old(users) && wishes == old(wishes) && deliveryStatus == old(deliveryStatus)
      ensures old(Valid()) ==> Valid()
    {
      if !ok {
        return Failure;
      }
      var id := PushKey(anniversaries.Keys);
      var code := GenerateCoupleCode();
      var created := anniversary.(id := id, coupleCode := code);
      anniversaries := anniversaries[id := created];
      r := Success(created);
    }

    /** The record with exactly this code that comes first in key order, if any. */
    method FindAnniversaryByCode(code: string, ok: bool) returns (r: Result<Option<Anniversary>>)
      ensures r.Success? <==> ok
      ensures ok ==> r.value == FindByCode(anniversaries, code)
    {
      if !ok {
        return Failure;
      }
      r := Success(FindByCode(anniversaries, code));
    }

    /** Stores `user` under a fresh key, with that key as id and the device's token. */
    method CreateUser(user: UserProfile, deviceToken: string, ok: bool) returns (r: Result<UserProfile>)
      modifies this
      ensures r.Success? <==> ok
      ensures ok ==> && r.value.id != "" && r.value.id !in old(users)
                     && r.value == user.(id := r.value.id, deviceToken := Some(deviceToken))
                     && users == old(users)[r.value.id := r.value]
      ensures !ok ==> users == old(users)
      ensures anniversaries == old(anniversaries) && wishes == old(wishes) && deliveryStatus == old(deliveryStatus)
      ensures old(Valid()) ==> Valid()
    {
      if !ok {
        return Failure;
      }
      var id := PushKey(users.Keys);
      var created := user.(id := id, deviceToken := Some(deviceToken));
      users := users[id := created];
      r := Success(created);
    }

    /** Stores `wish` under a fresh key, with that key as id. */
    method SaveWishMessage(wish: WishMessage, ok: bool) returns (r: Result<WishMessage>)
      modifies this
      ensures r.Success? <==> ok
      ensures ok ==> && r.value.id != "" && r.value.id !in old(wishes)
                     && r.value == wish.(id := r.value.id)
                     && wishes == old(wishes)[r.value.id := r.value]
      ensures !ok ==> wishes == old(wishes)
      ensures anniversaries == old(anniversaries) && users == old(users) && deliveryStatus == old(deliveryStatus)
      ensures old(Valid()) ==> Valid()
    {
      if !ok {
        return Failure;
      }
      var id := PushKey(wishes.Keys);
      var created := wish.(id := id);
      wishes := wishes[id := created];
      r := Success(created);
    }

    /** The anniversary's wishes, sorted by month. */
    method GetWishesForAnniversary(anniversaryId: Key, ok: bool) returns (r: Result<seq<WishMessage>>)
      ensures r.Success? <==> ok
      ensures ok ==> && r.value == WishesForAnniversary(wishes, anniversaryId)
                     && SortedByMonth(r.value)
                     && forall w :: w in r.value <==> w in wishes.Values && w.anniversaryId == anniversaryId
    {
      if !ok {
        return Failure;
      }
      r := Success(WishesForAnniversary(wishes, anniversaryId));
    }

    /** Sets or clears the delivered flag; a failed write is swallowed. */
    method UpdateWishDeliveryStatus(wishId: Key, isDelivered: bool, now: Instant, ok: bool)
      modifies this
      ensures wishes == if ok then MarkDelivery(old(wishes), wishId, isDelivered, now) else old(wishes)
      ensures anniversaries == old(anniversaries) && users == old(users) && deliveryStatus == old(deliveryStatus)
      ensures old(Valid()) && wishId in old(wishes) ==> Valid()
    {
      if ok {
        if Valid() && wishId in wishes {
          MarkKeepsWellKeyed(wishes, wishId, isDelivered, now);
        }
        wishes := MarkDelivery(wishes, wishId, isDelivered, now);
      }
    }

    method SaveDeliveryStatus(status: DeliveryStatus, ok: bool) returns (r: Result<()>)
      modifies this
      ensures r.Success? <==> ok
      ensures deliveryStatus == if ok then PutStatus(old(deliveryStatus), status) else old(deliveryStatus)
      ensures anniversaries == old(anniversaries) && users == old(users) && wishes == old(wishes)
      ensures old(Valid()) ==> Valid()
    {
      if !ok {
        return Failure;
      }
      deliveryStatus := PutStatus(deliveryStatus, status);
      r := Success(());
    }

    /** Writes `girlId` whatever the record held before. */
    method LinkGirlToAnniversary(anniversaryId: Key, girlId: Key, now: Instant, ok: bool) returns (r: Result<()>)
      modifies this
      ensures r.Success? <==> ok
      ensures anniversaries == if ok then LinkGirl(old(anniversaries), anniversaryId, girlId, now) else old(anniversaries)
      ensures users == old(users) && wishes == old(wishes) && deliveryStatus == old(deliveryStatus)
      ensures old(Valid()) && anniversaryId in old(anniversaries) ==> Valid()
    {
      if !ok {
        return Failure;
      }
      if Valid() && anniversaryId in anniversaries {
        LinkGirlKeepsWellKeyed(anniversaries, anniversaryId, girlId, now);
      }
      anniversaries := LinkGirl(anniversaries, anniversaryId, girlId, now);
      r := Success(());
    }

    method UpdateUserProfile(userId: Key, updates: map<string, string>, now: Instant, ok: bool) returns (r: Result<()>)
      modifies this
      ensures r.Success? <==> ok
      ensures users == if ok then UpdateUser(old(users), userId, updates, now) else old(users)
      ensures anniversaries == old(anniversaries) && wishes == old(wishes) && deliveryStatus == old(deliveryStatus)
      ensures old(Valid()) ==> Valid()
    {
      if !ok {
        return Failure;
      }
      users := UpdateUser(users, userId, updates, now);
      r := Success(());
    }
  }
}
