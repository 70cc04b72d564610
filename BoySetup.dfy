/**
 * Setting up a couple: the boy's side of the pairing protocol.
 *
 * `CreateAnniversary` creates the boy's profile, then the anniversary
 * record that points at it (which receives a fresh pairing code), and
 * finally writes the record id back into the profile. The result of that
 * last write is not looked at.
 */
module BoySetup {
  import opened Model
  import opened KeyOrder
  import opened Repository

  datatype BoySetupUiState = BoySetupUiState(isLoading: bool, anniversaryId: string, coupleCode: string,
                                             errorMessage: string)

  /** The error texts the screen shows. */
  const FailedToCreateUserProfile: string := "Failed to create user profile"
  const FailedToCreateAnniversary: string := "Failed to create anniversary"

  /** The profile the setup asks the repository to create. */
  function BoyProfile(boyName: string, now: Instant): (u: UserProfile)
    ensures u.role == BOY && u.name == boyName
    ensures u.id == "" && u.anniversaryId == None && u.deviceToken == None
  {
    DefaultUserProfile(now).(name := boyName)
  }

  /** The record the setup asks the repository to create for the boy `boyId`. */
  function NewAnniversary(boyId: Key, startDate: Instant, now: Instant): (a: Anniversary)
    ensures a.boyId == boyId && a.relationshipStartDate == startDate
    ensures a.girlId == "" && a.isActive
    ensures a.id == "" && a.coupleCode == ""
    ensures a.createdAt == now && a.updatedAt == now
  {
    DefaultAnniversary(now).(boyId := boyId, relationshipStartDate := startDate)
  }

  /**
   * The back-link write sets exactly the profile's `anniversaryId`: the
   * profile that was just stored keeps every other field.
   */
  lemma BackLinkSetsAnniversaryId(users: map<Key, UserProfile>, boy: UserProfile, anniversaryId: Key, now: Instant)
    requires boy.id in users && users[boy.id] == boy
    ensures UpdateUser(users, boy.id, map["anniversaryId" := anniversaryId], now)
            == users[boy.id := boy.(anniversaryId := Some(anniversaryId))]
  {
    var r := UpdateUser(users, boy.id, map["anniversaryId" := anniversaryId], now);
    assert r[boy.id] == boy.(anniversaryId := Some(anniversaryId));
    assert r.Keys == users[boy.id := boy.(anniversaryId := Some(anniversaryId))].Keys;
  }

  class BoySetupViewModel {
    var uiState: BoySetupUiState
    /** Every value the UI state has taken, oldest first. */
    ghost var states: seq<BoySetupUiState>
    const repository: AnniversaryRepository

    constructor (repository: AnniversaryRepository)
      ensures this.repository == repository
      ensures uiState == BoySetupUiState(false, "", "", "") && states == [uiState]
    {
      this.repository := repository;
      uiState := BoySetupUiState(false, "", "", "");
      states := [BoySetupUiState(false, "", "", "")];
    }

    /**
     * Sets up a couple for a boy named `boyName` whose relationship started
     * at `startDate`. `userOk`, `anniversaryOk` and `backLinkOk` say which
     * repository calls succeed; `deviceToken` is what the messaging service
     * returns. `boy` is the profile created, if any, and `created` the
     * anniversary record created, if any.
     */
    method CreateAnniversary(boyName: string, startDate: Instant, userOk: bool, deviceToken: string,
                             anniversaryOk: bool, backLinkOk: bool, now: Instant)
      returns (ghost boy: UserProfile, ghost created: Anniversary)
      modifies this, repository
      ensures states == old(states) + [old(uiState).(isLoading := true, errorMessage := ""), uiState]
      ensures !uiState.isLoading
      ensures !userOk ==>
                && uiState == old(uiState).(isLoading := false, errorMessage := FailedToCreateUserProfile)
                && repository.users == old(repository.users)
                && repository.anniversaries == old(repository.anniversaries)
      ensures userOk ==>
                && boy.id != "" && boy.id !in old(repository.users)
                && boy == BoyProfile(boyName, now).(id := boy.id, deviceToken := Some(deviceToken))
      ensures userOk && !anniversaryOk ==>
                && uiState == old(uiState).(isLoading := false, errorMessage := FailedToCreateAnniversary)
                && repository.users == old(repository.users)[boy.id := boy]
                && repository.anniversaries == old(repository.anniversaries)
      ensures userOk && anniversaryOk ==>
                && created.id != "" && created.id !in old(repository.anniversaries)
                && IsCoupleCode(created.coupleCode)
                && created == NewAnniversary(boy.id, startDate, now).(id := created.id, coupleCode := created.coupleCode)
                && repository.anniversaries == old(repository.anniversaries)[created.id := created]
                && repository.users == old(repository.users)[boy.id :=
                     if backLinkOk then boy.(anniversaryId := Some(created.id)) else boy]
                && uiState == old(uiState).(isLoading := false, errorMessage := "",
                                            anniversaryId := created.id, coupleCode := created.coupleCode)
      ensures repository.wishes == old(repository.wishes)
      ensures repository.deliveryStatus == old(repository.deliveryStatus)
      ensures old(repository.Valid()) ==> repository.Valid()
    {
      ghost var states0 := states;
      boy, created := DefaultUserProfile(now), DefaultAnniversary(now);
      uiState := uiState.(isLoading := true, errorMessage := "");
      ghost var loading := uiState;

      var userResult := repository.CreateUser(BoyProfile(boyName, now), deviceToken, userOk);
      if userResult.Failure? {
        uiState := uiState.(isLoading := false, errorMessage := FailedToCreateUserProfile);
      } else {
        var user := userResult.value;
        boy := user;
        created := RegisterAnniversary(user, startDate, anniversaryOk, backLinkOk, now);
      }
      states := states0 + [loading, uiState];
    }

    /**
     * The second half of the setup, once the profile `boy` is stored:
     * creates the anniversary record, back-links the profile and records
     * the final UI state.
     */
    method RegisterAnniversary(boy: UserProfile, startDate: Instant, anniversaryOk: bool, backLinkOk: bool,
                               now: Instant)
      returns (ghost created: Anniversary)
      requires boy.id in repository.users && repository.users[boy.id] == boy
      modifies this, repository
      ensures states == old(states)
      ensures !anniversaryOk ==>
                && uiState == old(uiState).(isLoading := false, errorMessage := FailedToCreateAnniversary)
                && repository.users == old(repository.users)
                && repository.anniversaries == old(repository.anniversaries)
      ensures anniversaryOk ==>
                && created.id != "" && created.id !in old(repository.anniversaries)
                && IsCoupleCode(created.coupleCode)
                && created == NewAnniversary(boy.id, startDate, now).(id := created.id, coupleCode := created.coupleCode)
                && repository.anniversaries == old(repository.anniversaries)[created.id := created]
                && repository.users == old(repository.users)[boy.id :=
                     if backLinkOk then boy.(anniversaryId := Some(created.id)) else boy]
                && uiState == old(uiState).(isLoading := false, anniversaryId := created.id,
                                            coupleCode := created.coupleCode)
      ensures repository.wishes == old(repository.wishes)
      ensures repository.deliveryStatus == old(repository.deliveryStatus)
      ensures old(repository.Valid()) ==> repository.Valid()
    {
      created := DefaultAnniversary(now);
      var anniversaryResult := repository.CreateAnniversary(NewAnniversary(boy.id, startDate, now), anniversaryOk);
      if anniversaryResult.Success? {
        var record := anniversaryResult.value;
        created := record;
        BackLinkSetsAnniversaryId(repository.users, boy, record.id, now);
        // The outcome of the back-link write is not inspected.
        var _ := repository.UpdateUserProfile(boy.id, map["anniversaryId" := record.id], now, backLinkOk);
        uiState := uiState.(isLoading := false, anniversaryId := record.id, coupleCode := record.coupleCode);
      } else {
        uiState := uiState.(isLoading := false, errorMessage := FailedToCreateAnniversary);
      }
    }
  }
}
