/**
 * The records of the anniversary app: a relationship record, the monthly
 * wish messages authored for it, the two user profiles and the per-wish
 * delivery status, each with the default values its constructor supplies.
 *
 * Dates are milliseconds since the epoch (`Instant`); a nullable field is
 * an `Option`. A default of "the current date" is taken from a `now`
 * parameter, because the model has no clock.
 */
module Model {

  type Instant = int

  datatype Option<+T> = None | Some(value: T)

  /** The outcome of a repository call: a value, or a swallowed exception. */
  datatype Result<+T> = Success(value: T) | Failure

  /** The two roles a profile can take. */
  datatype UserRole = BOY | GIRL

  datatype Anniversary = Anniversary(
    id: string,
    boyId: string,
    girlId: string,
    relationshipStartDate: Instant,
    coupleCode: string,
    isActive: bool,
    createdAt: Instant,
    updatedAt: Instant)

  datatype WishMessage = WishMessage(
    id: string,
    anniversaryId: string,
    monthNumber: int,
    title: string,
    message: string,
    imageUrl: Option<string>,
    audioUrl: Option<string>,
    hasConfetti: bool,
    lottieAnimationUrl: Option<string>,
    backgroundColor: string,
    textColor: string,
    scheduledDate: Option<Instant>,
    isDelivered: bool,
    deliveredAt: Option<Instant>,
    createdAt: Instant,
    updatedAt: Instant)

  datatype UserProfile = UserProfile(
    id: string,
    role: UserRole,
    name: string,
    email: Option<string>,
    profileImageUrl: Option<string>,
    anniversaryId: Option<string>,
    deviceToken: Option<string>,
    isOnline: bool,
    lastSeen: Instant,
    createdAt: Instant)

  datatype DeliveryStatus = DeliveryStatus(
    wishId: string,
    isRead: bool,
    readAt: Option<Instant>,
    reaction: Option<string>,
    comment: Option<string>)

  /** `Anniversary()` built at time `now`: unpaired, active, no id and no code yet. */
  function DefaultAnniversary(now: Instant): (a: Anniversary)
    ensures a.id == "" && a.boyId == "" && a.girlId == "" && a.coupleCode == ""
    ensures a.isActive
    ensures a.relationshipStartDate == now && a.createdAt == now && a.updatedAt == now
  {
    Anniversary("", "", "", now, "", true, now, now)
  }

  /** `WishMessage()` built at time `now`: month 1, undelivered, with confetti, pink on white. */
  function DefaultWishMessage(now: Instant): (w: WishMessage)
    ensures w.id == "" && w.anniversaryId == "" && w.title == "" && w.message == ""
    ensures w.monthNumber == 1
    ensures !w.isDelivered && w.deliveredAt == None && w.scheduledDate == None
    ensures w.hasConfetti
    ensures w.imageUrl == None && w.audioUrl == None && w.lottieAnimationUrl == None
    ensures w.backgroundColor == "#FF69B4" && w.textColor == "#FFFFFF"
    ensures w.createdAt == now && w.updatedAt == now
  {
    WishMessage("", "", 1, "", "", None, None, true, None, "#FF69B4", "#FFFFFF",
                None, false, None, now, now)
  }

  /** `UserProfile()` built at time `now`: role BOY, offline, not yet bound to an anniversary. */
  function DefaultUserProfile(now: Instant): (u: UserProfile)
    ensures u.id == "" && u.name == "" && u.role == BOY
    ensures u.email == None && u.profileImageUrl == None
    ensures u.anniversaryId == None && u.deviceToken == None
    ensures !u.isOnline && u.lastSeen == now && u.createdAt == now
  {
    UserProfile("", BOY, "", None, None, None, None, false, now, now)
  }

  /** `DeliveryStatus()`: unread, with no read date, reaction or comment. */
  function DefaultDeliveryStatus(): (s: DeliveryStatus)
    ensures s.wishId == "" && !s.isRead
    ensures s.readAt == None && s.reaction == None && s.comment == None
  {
    DeliveryStatus("", false, None, None, None)
  }
}
