/**
 * The receiver's view of the wishes: every snapshot of the wishes
 * collection is turned into the anniversary's sorted list and shown, and a
 * reaction to a wish is stored as that wish's delivery status.
 */
module WishDisplay {
  import opened Model
  import opened KeyOrder
  import opened Repository

  datatype WishDisplayUiState = WishDisplayUiState(isLoading: bool, wishes: seq<WishMessage>, errorMessage: string)

  const FailedToLoadMessages: string := "Failed to load messages"

  /** Whether a wish may be shown before it is delivered: for now, always, whatever its dates. */
  predicate ShouldShowWish(w: WishMessage): (show: bool)
    ensures show
  {
    true
  }

  /** `filter { it.isDelivered || shouldShowWish(it) }`. */
  function VisibleWishes(s: seq<WishMessage>): (r: seq<WishMessage>)
    ensures forall w :: w in r <==> w in s && (w.isDelivered || ShouldShowWish(w))
    ensures |r| <= |s|
  {
    if s == [] then []
    else
      var t := VisibleWishes(s[1..]);
      assert s == [s[0]] + s[1..];
      if s[0].isDelivered || ShouldShowWish(s[0]) then [s[0]] + t else t
  }

  /** Nothing is hidden: undelivered wishes are shown too, in the emitted order. */
  lemma {:induction false} AllWishesVisible(s: seq<WishMessage>)
    ensures VisibleWishes(s) == s
  {
    if s != [] {
      AllWishesVisible(s[1..]);
      assert s == [s[0]] + s[1..];
    }
  }

  /** How a subscription ends: it stays open, or the store cancels it with an error text. */
  datatype StreamEnd = Open | Cancelled(message: Option<string>)

  /** The text shown when the subscription is cancelled. */
  function CancelText(message: Option<string>): (text: string)
    ensures message.Some? ==> text == message.value
    ensures message.None? ==> text == FailedToLoadMessages
  {
    if message.Some? then message.value else FailedToLoadMessages
  }

  /** The reaction record `addReaction` stores, read at `now`. */
  function ReactionStatus(wishId: Key, reaction: string, now: Instant): (s: DeliveryStatus)
    ensures s.wishId == wishId && s.isRead && s.readAt == Some(now)
    ensures s.reaction == Some(reaction) && s.comment == None
  {
    DefaultDeliveryStatus().(wishId := wishId, isRead := true, readAt := Some(now), reaction := Some(reaction))
  }

  /** Reacting twice to the same wish keeps only the second reaction. */
  lemma LastReactionWins(statuses: map<Key, DeliveryStatus>, wishId: Key,
                         first: string, second: string, now1: Instant, now2: Instant)
    ensures var after := PutStatus(PutStatus(statuses, ReactionStatus(wishId, first, now1)),
                                   ReactionStatus(wishId, second, now2));
            && after == PutStatus(statuses, ReactionStatus(wishId, second, now2))
            && after[wishId].reaction == Some(second) && after[wishId].readAt == Some(now2)
            && after[wishId].comment == None
  {
    LastStatusWins(statuses, ReactionStatus(wishId, first, now1), ReactionStatus(wishId, second, now2));
  }

  /** The UI states the emitted lists `emitted` produce, one per list, starting from `s0`. */
  function Emissions(s0: WishDisplayUiState, emitted: seq<seq<WishMessage>>): (r: seq<WishDisplayUiState>)
    ensures |r| == |emitted|
    ensures forall j :: 0 <= j < |r| ==>
              && !r[j].isLoading && r[j].errorMessage == s0.errorMessage
              && r[j].wishes == VisibleWishes(emitted[j])
  {
    if emitted == [] then []
    else
      var n := |emitted| - 1;
      Emissions(s0, emitted[..n]) + [s0.(isLoading := false, wishes := VisibleWishes(emitted[n]))]
  }

  /**
   * The list shown after the `j`-th snapshot is the anniversary's whole
   * list for that snapshot: exactly its wishes, delivered or not, sorted by
   * month.
   */
  lemma ShownAfterSnapshot(s0: WishDisplayUiState, snapshots: seq<map<Key, WishMessage>>, anniversaryId: Key, j: nat)
    requires j < |snapshots|
    ensures var shown := Emissions(s0, ObserveWishes(snapshots, anniversaryId))[j].wishes;
            && shown == WishesForAnniversary(snapshots[j], anniversaryId)
            && SortedByMonth(shown)
            && forall w :: w in shown <==> w in snapshots[j].Values && w.anniversaryId == anniversaryId
  {
    ObservedEmission(snapshots, anniversaryId, j);
    AllWishesVisible(WishesForAnniversary(snapshots[j], anniversaryId));
  }

  /** The last state a history of emissions ends with shows the last snapshot's list. */
  lemma LastEmission(s0: WishDisplayUiState, snapshots: seq<map<Key, WishMessage>>, anniversaryId: Key,
                     prefix: seq<WishDisplayUiState>, states: seq<WishDisplayUiState>, last: WishDisplayUiState)
    requires snapshots != []
    requires states == prefix + Emissions(s0, ObserveWishes(snapshots, anniversaryId))
    requires states[|states| - 1] == last
    ensures last == Emissions(s0, ObserveWishes(snapshots, anniversaryId))[|snapshots| - 1]
    ensures last.wishes == WishesForAnniversary(snapshots[|snapshots| - 1], anniversaryId)
  {
    ShownAfterSnapshot(s0, snapshots, anniversaryId, |snapshots| - 1);
  }

  class WishDisplayViewModel {
    var uiState: WishDisplayUiState
    /** Every value the UI state has taken, oldest first. */
    ghost var states: seq<WishDisplayUiState>
    const repository: AnniversaryRepository

    constructor (repository: AnniversaryRepository)
      ensures this.repository == repository
      ensures uiState == WishDisplayUiState(false, [], "") && states == [uiState]
    {
      this.repository := repository;
      uiState := WishDisplayUiState(false, [], "");
      states := [WishDisplayUiState(false, [], "")];
    }

    /**
     * `loadWishes`: subscribes to the wishes of `anniversaryId`. The wishes
     * collection goes through the snapshots `snapshots`, in order, and then
     * the subscription ends as `end` says.
     */
    method LoadWishes(anniversaryId: Key, snapshots: seq<map<Key, WishMessage>>, end: StreamEnd)
      modifies this
      ensures var loading := old(uiState).(isLoading := true);
              var emitted := old(states) + [loading] + Emissions(loading, ObserveWishes(snapshots, anniversaryId));
              states == if end.Cancelled? then emitted + [uiState] else emitted
      ensures states[|states| - 1] == uiState
      ensures end.Cancelled? ==> !uiState.isLoading && uiState.errorMessage == CancelText(end.message)
      ensures end.Open? ==> uiState.isLoading == (|snapshots| == 0) && uiState.errorMessage == old(uiState).errorMessage
      ensures snapshots == [] ==> uiState.wishes == old(uiState).wishes
      ensures snapshots != [] ==> uiState.wishes == WishesForAnniversary(snapshots[|snapshots| - 1], anniversaryId)
      ensures end.Cancelled? ==>
                uiState == (if snapshots == [] then old(uiState)
                            else Emissions(old(uiState).(isLoading := true),
                                           ObserveWishes(snapshots, anniversaryId))[|snapshots| - 1])
                           .(isLoading := false, errorMessage := CancelText(end.message))
    {
      uiState := uiState.(isLoading := true);
      states := states + [uiState];
      var emitted := ObserveWishes(snapshots, anniversaryId);
      ghost var loading, prefix := uiState, states;
      Collect(emitted);
      if snapshots != [] {
        LastEmission(loading, snapshots, anniversaryId, prefix, states, uiState);
      }
      EndStream(end);
    }

    /** How the subscription ends: a cancellation leaves loading and shows the error's text. */
    method EndStream(end: StreamEnd)
      requires states != [] && states[|states| - 1] == uiState
      modifies this
      ensures uiState == if end.Cancelled? then old(uiState).(isLoading := false, errorMessage := CancelText(end.message))
                         else old(uiState)
      ensures states == if end.Cancelled? then old(states) + [uiState] else old(states)
      ensures states[|states| - 1] == uiState
    {
      if end.Cancelled? {
        uiState := uiState.(isLoading := false, errorMessage := CancelText(end.message));
        states := states + [uiState];
      }
    }

    /** The `collect` loop: one UI state per emitted list. */
    method Collect(emitted: seq<seq<WishMessage>>)
      requires states != [] && states[|states| - 1] == uiState
      modifies this
      ensures states == old(states) + Emissions(old(uiState), emitted)
      ensures states[|states| - 1] == uiState
      ensures emitted == [] ==> uiState == old(uiState)
      ensures emitted != [] ==> !uiState.isLoading && uiState.errorMessage == old(uiState).errorMessage
    {
      ghost var states0 := states;
      for i := 0 to |emitted|
        invariant states == states0 + Emissions(old(uiState), emitted[..i])
        invariant states[|states| - 1] == uiState
        invariant i == 0 ==> uiState == old(uiState)
        invariant i > 0 ==> !uiState.isLoading && uiState.errorMessage == old(uiState).errorMessage
      {
        assert emitted[..i + 1][..i] == emitted[..i];
        uiState := uiState.(isLoading := false, wishes := VisibleWishes(emitted[i]));
        states := states + [uiState];
      }
      assert emitted[..|emitted|] == emitted;
    }

    /** `addReaction`: stores the reaction as the wish's delivery status; a failed write is dropped. */
    method AddReaction(wishId: Key, reaction: string, now: Instant, ok: bool)
      modifies repository
      ensures repository.deliveryStatus ==
                if ok then PutStatus(old(repository.deliveryStatus), ReactionStatus(wishId, reaction, now))
                else old(repository.deliveryStatus)
      ensures repository.anniversaries == old(repository.anniversaries)
      ensures repository.users == old(repository.users)
      ensures repository.wishes == old(repository.wishes)
      ensures uiState == old(uiState)
      ensures old(repository.Valid()) ==> repository.Valid()
    {
      var _ := repository.SaveDeliveryStatus(ReactionStatus(wishId, reaction, now), ok);
    }
  }
}
