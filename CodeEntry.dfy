/**
 * Redeeming a pairing code: the girl's side of the pairing protocol.
 *
 * `VerifyCode` looks the code up, refuses a missing or already used code,
 * creates the girl's profile and then writes its id into the record's
 * `girlId`. The two writes are not atomic: a failed link leaves the new
 * profile in the store. `Pairing` is the decision the steps reach, as a
 * function of the store before the call and of which calls succeed.
 */
module CodeEntry {
  import opened Model
  import opened KeyOrder
  import opened Repository

  datatype CodeEntryUiState = CodeEntryUiState(isLoading: bool, anniversaryId: string, errorMessage: string)

  /** The error texts the screen shows. */
  const FailedToVerifyCode: string := "Failed to verify code"
  const InvalidCode: string := "Invalid code. Please check and try again."
  const CodeInUse: string := "This code is already in use."
  const FailedToCreateProfile: string := "Failed to create profile"
  const FailedToLinkProfiles: string := "Failed to link profiles"

  /** Where a redemption stops. */
  datatype PairingOutcome = LookupFailed | NotFound | AlreadyInUse | ProfileFailed | LinkFailed | Paired

  /** The error text shown for an outcome; a successful pairing shows none. */
  function ErrorText(outcome: PairingOutcome): (text: string)
    ensures text == "" <==> outcome.Paired?
  {
    match outcome
    case LookupFailed => FailedToVerifyCode
    case NotFound => InvalidCode
    case AlreadyInUse => CodeInUse
    case ProfileFailed => FailedToCreateProfile
    case LinkFailed => FailedToLinkProfiles
    case Paired => ""
  }

  /**
   * The outcome of redeeming `code` against `anniversaries`, given whether
   * the lookup, the profile creation and the link write succeed.
   */
  function Pairing(anniversaries: map<Key, Anniversary>, code: string,
                   lookupOk: bool, createOk: bool, linkOk: bool): (outcome: PairingOutcome)
    ensures outcome == LookupFailed <==> !lookupOk
    ensures outcome == NotFound <==>
              lookupOk && forall k :: k in anniversaries ==> anniversaries[k].coupleCode != code
    ensures !outcome.LookupFailed? && !outcome.NotFound? ==>
              lookupOk && FindByCode(anniversaries, code).Some?
    ensures outcome == AlreadyInUse <==>
              lookupOk && FindByCode(anniversaries, code).Some? && FindByCode(anniversaries, code).value.girlId != ""
    ensures (outcome.ProfileFailed? || outcome.LinkFailed? || outcome.Paired?) ==> FindByCode(anniversaries, code).value.girlId == ""
    ensures outcome == ProfileFailed <==>
              lookupOk && FindByCode(anniversaries, code).Some? && FindByCode(anniversaries, code).value.girlId == ""
              && !createOk
    ensures outcome == LinkFailed <==>
              lookupOk && FindByCode(anniversaries, code).Some? && FindByCode(anniversaries, code).value.girlId == ""
              && createOk && !linkOk
    ensures (outcome.LinkFailed? || outcome.Paired?) ==> createOk
    ensures outcome == Paired <==>
              lookupOk && createOk && linkOk && FindByCode(anniversaries, code).Some?
              && FindByCode(anniversaries, code).value.girlId == ""
  {
    if !lookupOk then LookupFailed
    else match FindByCode(anniversaries, code)
      case None => NotFound
      case Some(a) =>
        if a.girlId != "" then AlreadyInUse
        else if !createOk then ProfileFailed
        else if !linkOk then LinkFailed
        else Paired
  }

  /** The profile a redemption asks the repository to create. */
  function GirlProfile(girlName: string, anniversaryId: Key, now: Instant): (u: UserProfile)
    ensures u.role == GIRL && u.name == girlName && u.anniversaryId == Some(anniversaryId)
    ensures u.id == "" && u.deviceToken == None
  {
    DefaultUserProfile(now).(role := GIRL, name := girlName, anniversaryId := Some(anniversaryId))
  }

  /**
   * What a redemption leaves behind, starting from the loading state
   * `loading`: the final UI state, the users and the anniversaries. `girlId`
   * is the key the profile is created under, when it is created.
   */
  function Redemption(loading: CodeEntryUiState, anniversaries: map<Key, Anniversary>, users: map<Key, UserProfile>,
                      code: string, girlName: string, lookupOk: bool, createOk: bool, deviceToken: string,
                      linkOk: bool, girlId: Key, now: Instant)
    : (r: (CodeEntryUiState, map<Key, UserProfile>, map<Key, Anniversary>))
    ensures !r.0.isLoading
    ensures r.1 == users
            || (lookupOk && FindByCode(anniversaries, code).Some?
                && r.1 == users[girlId := GirlProfile(girlName, FindByCode(anniversaries, code).value.id, now)
                                          .(id := girlId, deviceToken := Some(deviceToken))])
    ensures r.2 == anniversaries
            || (lookupOk && FindByCode(anniversaries, code).Some?
                && r.2 == LinkGirl(anniversaries, FindByCode(anniversaries, code).value.id, girlId, now))
  {
    if !lookupOk then (loading.(isLoading := false, errorMessage := FailedToVerifyCode), users, anniversaries)
    else match FindByCode(anniversaries, code)
      case None => (loading.(isLoading := false, errorMessage := InvalidCode), users, anniversaries)
      case Some(a) =>
        if a.girlId != "" then (loading.(isLoading := false, errorMessage := CodeInUse), users, anniversaries)
        else if !createOk then (loading.(isLoading := false, errorMessage := FailedToCreateProfile), users, anniversaries)
        else
          var created := users[girlId := GirlProfile(girlName, a.id, now).(id := girlId, deviceToken := Some(deviceToken))];
          if !linkOk then (loading.(isLoading := false, errorMessage := FailedToLinkProfiles), created, anniversaries)
          else (loading.(isLoading := false, anniversaryId := a.id), created, LinkGirl(anniversaries, a.id, girlId, now))
  }

  /**
   * A redemption ends out of the loading state, shows the error text of its
   * outcome or, once paired, the anniversary's id; it writes nothing when it
   * stops before the profile is created, keeps the new profile when only the
   * link fails, and sets the record's `girlId` when it pairs.
   */
  lemma RedemptionByOutcome(loading: CodeEntryUiState, anniversaries: map<Key, Anniversary>, users: map<Key, UserProfile>,
                            code: string, girlName: string, lookupOk: bool, createOk: bool, deviceToken: string,
                            linkOk: bool, girlId: Key, now: Instant)
    ensures var r := Redemption(loading, anniversaries, users, code, girlName, lookupOk, createOk, deviceToken,
                                linkOk, girlId, now);
            var outcome := Pairing(anniversaries, code, lookupOk, createOk, linkOk);
            var a := FindByCode(anniversaries, code);
            && !r.0.isLoading
            && r.0 == (if outcome == Paired then loading.(isLoading := false, anniversaryId := a.value.id)
                       else loading.(isLoading := false, errorMessage := ErrorText(outcome)))
            && (outcome.LookupFailed? || outcome.NotFound? || outcome.AlreadyInUse? || outcome.ProfileFailed? ==> r.1 == users && r.2 == anniversaries)
            && (outcome.LinkFailed? || outcome.Paired? ==>
                  && r.1 == users[girlId := GirlProfile(girlName, a.value.id, now).(id := girlId, deviceToken := Some(deviceToken))]
                  && r.2 == if outcome == Paired then LinkGirl(anniversaries, a.value.id, girlId, now) else anniversaries)
  {
    var outcome := Pairing(anniversaries, code, lookupOk, createOk, linkOk);
    if lookupOk {
      match FindByCode(anniversaries, code)
      case None =>
        assert outcome == NotFound;
      case Some(a) =>
        if a.girlId != "" {
          assert outcome == AlreadyInUse;
        } else if !createOk {
          assert outcome == ProfileFailed;
        } else if !linkOk {
          assert outcome == LinkFailed;
        } else {
          assert outcome == Paired;
        }
    }
  }

  /** The record a code finds is stored under its own id. */
  lemma FoundIsStored(anniversaries: map<Key, Anniversary>, code: string)
    requires AnniversariesWellKeyed(anniversaries) && FindByCode(anniversaries, code).Some?
    ensures var a := FindByCode(anniversaries, code).value;
            a.id in anniversaries && anniversaries[a.id] == a
  {
    var k := FindKeyByCode(anniversaries, code).value;
    assert FindByCode(anniversaries, code).value == anniversaries[k];
  }

  /** A redemption keeps every anniversary under its own id: it only links the record the code found. */
  lemma RedemptionKeepsWellKeyed(loading: CodeEntryUiState, anniversaries: map<Key, Anniversary>,
                                 users: map<Key, UserProfile>, code: string, girlName: string, lookupOk: bool,
                                 createOk: bool, deviceToken: string, linkOk: bool, girlId: Key, now: Instant)
    requires AnniversariesWellKeyed(anniversaries)
    ensures AnniversariesWellKeyed(Redemption(loading, anniversaries, users, code, girlName, lookupOk, createOk,
                                              deviceToken, linkOk, girlId, now).2)
  {
    var found := FindByCode(anniversaries, code);
    if lookupOk && found.Some? {
      FoundIsStored(anniversaries, code);
      LinkGirlKeepsWellKeyed(anniversaries, found.value.id, girlId, now);
    }
    var r := Redemption(loading, anniversaries, users, code, girlName, lookupOk, createOk, deviceToken, linkOk,
                        girlId, now);
  }

  /**
   * Once a code has been redeemed, redeeming it again is refused: the lookup
   * still finds the same record (the one with the least key holding the
   * code), and its `girlId` is now the non-empty id of the new profile.
   */
  lemma RedeemedCodeIsInUse(anniversaries: map<Key, Anniversary>, code: string, girlId: Key, now: Instant,
                            createOk: bool, linkOk: bool)
    requires AnniversariesWellKeyed(anniversaries)
    requires FindByCode(anniversaries, code).Some?
    requires girlId != ""
    ensures var a := FindByCode(anniversaries, code).value;
            var linked := LinkGirl(anniversaries, a.id, girlId, now);
            && FindByCode(linked, code) == Some(a.(girlId := girlId))
            && Pairing(linked, code, true, createOk, linkOk) == AlreadyInUse
  {
    LinkedRecordKeepsCode(anniversaries, code, girlId, now);
  }

  /** Setting the girl of the record a code finds keeps the code finding it. */
  lemma LinkedRecordKeepsCode(anniversaries: map<Key, Anniversary>, code: string, girlId: Key, now: Instant)
    requires AnniversariesWellKeyed(anniversaries)
    requires FindByCode(anniversaries, code).Some?
    ensures var a := FindByCode(anniversaries, code).value;
            FindByCode(LinkGirl(anniversaries, a.id, girlId, now), code) == Some(a.(girlId := girlId))
  {
    var k := FindKeyByCode(anniversaries, code).value;
    var a := anniversaries[k];
    assert a.id == k;
    var linked := LinkGirl(anniversaries, k, girlId, now);
    LinkGirlKeepsCodes(anniversaries, k, girlId, now);
    FindKeyByCodeDependsOnCodesOnly(anniversaries, linked, code);
  }

  class CodeEntryViewModel {
    var uiState: CodeEntryUiState
    /** Every value the UI state has taken, oldest first. */
    ghost var states: seq<CodeEntryUiState>
    const repository: AnniversaryRepository

    constructor (repository: AnniversaryRepository)
      ensures this.repository == repository
      ensures uiState == CodeEntryUiState(false, "", "") && states == [uiState]
    {
      this.repository := repository;
      uiState := CodeEntryUiState(false, "", "");
      states := [CodeEntryUiState(false, "", "")];
    }

    /**
     * Redeems `code` for a girl named `girlName`. The flags say which
     * repository calls succeed; `deviceToken` is what the messaging service
     * returns; `girlId` is the key the new profile is stored under, if one
     * is created.
     */
    method VerifyCode(code: string, girlName: string, lookupOk: bool, createOk: bool, deviceToken: string,
                      linkOk: bool, now: Instant)
      returns (ghost girlId: Key)
      modifies this, repository
      ensures states == old(states) + [old(uiState).(isLoading := true, errorMessage := ""), uiState]
      ensures (uiState, repository.users, repository.anniversaries)
              == Redemption(old(uiState).(isLoading := true, errorMessage := ""),
                            old(repository.anniversaries), old(repository.users),
                            code, girlName, lookupOk, createOk, deviceToken, linkOk, girlId, now)
      ensures var outcome := Pairing(old(repository.anniversaries), code, lookupOk, createOk, linkOk);
              outcome.LinkFailed? || outcome.Paired? ==>
                girlId != "" && girlId !in old(repository.users)
      ensures repository.wishes == old(repository.wishes)
      ensures repository.deliveryStatus == old(repository.deliveryStatus)
      ensures old(repository.Valid()) ==> repository.Valid()
    {
      ghost var anniversaries0, users0 := repository.anniversaries, repository.users;
      ghost var valid0 := repository.Valid();
      ghost var states0 := states;
      girlId := "";
      uiState := uiState.(isLoading := true, errorMessage := "");
      ghost var loading := uiState;

      var anniversaryResult := repository.FindAnniversaryByCode(code, lookupOk);
      if anniversaryResult.Failure? {
        uiState := uiState.(isLoading := false, errorMessage := FailedToVerifyCode);
      } else if anniversaryResult.value.None? {
        uiState := uiState.(isLoading := false, errorMessage := InvalidCode);
      } else if anniversaryResult.value.value.girlId != "" {
        uiState := uiState.(isLoading := false, errorMessage := CodeInUse);
      } else {
        girlId := Enroll(anniversaryResult.value.value, girlName, createOk, deviceToken, linkOk, now);
      }
      states := states0 + [loading, uiState];
      if valid0 {
        RedemptionKeepsWellKeyed(loading, anniversaries0, users0, code, girlName, lookupOk, createOk, deviceToken,
                                 linkOk, girlId, now);
      }
    }

    /**
     * The second half of a redemption, once the code has been found unused:
     * creates the girl's profile, then links it into `anniversary`, and
     * records the final UI state.
     */
    method Enroll(anniversary: Anniversary, girlName: string, createOk: bool, deviceToken: string,
                  linkOk: bool, now: Instant)
      returns (ghost girlId: Key)
      modifies this, repository
      ensures states == old(states)
      ensures uiState == if createOk && linkOk
                         then old(uiState).(isLoading := false, anniversaryId := anniversary.id)
                         else old(uiState).(isLoading := false,
                                            errorMessage := if createOk then FailedToLinkProfiles else FailedToCreateProfile)
      ensures !createOk ==> repository.users == old(repository.users) && repository.anniversaries == old(repository.anniversaries)
      ensures createOk ==>
                && girlId != "" && girlId !in old(repository.users)
                && repository.users == old(repository.users)[girlId :=
                     GirlProfile(girlName, anniversary.id, now).(id := girlId, deviceToken := Some(deviceToken))]
                && repository.anniversaries ==
                     if linkOk then LinkGirl(old(repository.anniversaries), anniversary.id, girlId, now)
                     else old(repository.anniversaries)
      ensures repository.wishes == old(repository.wishes)
      ensures repository.deliveryStatus == old(repository.deliveryStatus)
    {
      girlId := "";
      var girlProfile := GirlProfile(girlName, anniversary.id, now);
      var userResult := repository.CreateUser(girlProfile, deviceToken, createOk);
      if userResult.Failure? {
        uiState := uiState.(isLoading := false, errorMessage := FailedToCreateProfile);
        return;
      }
      var girl := userResult.value;
      girlId := girl.id;

      var linkResult := repository.LinkGirlToAnniversary(anniversary.id, girl.id, now, linkOk);
      if linkResult.Success? {
        uiState := uiState.(isLoading := false, anniversaryId := anniversary.id);
      } else {
        uiState := uiState.(isLoading := false, errorMessage := FailedToLinkProfiles);
      }
    }
  }
}
