/**
 * The store's vocabulary (types/database.ts): the three enumerations, the five
 * table rows, and for each table the Insert shape (with the column defaults the
 * store fills in) and the Update shape (the columns a mutation may touch).
 *
 * Identifiers and timestamps are opaque strings, coordinates opaque numbers. A
 * nullable column is an `Option`; an optional field of an Insert or Update shape
 * is an `Option` too, so an optional nullable field is an `Option<Option<_>>`
 * whose outer `None` means "not given" and inner `None` means "set to null".
 */
module Database {
  import opened Wrappers

  type Uuid = string
  type Timestamp = string

  /** A `location_coords` value; the model does no arithmetic on it. */
  datatype Coords = Coords(lat: real, lng: real)

  /**
   * The values the store generates for an inserted row whose Insert leaves the
   * column out and whose default is generated: a fresh id and the current time.
   */
  datatype Generated = Generated(id: Uuid, now: Timestamp)

  /** A completed column: the given value when there is one, else the default. */
  predicate Takes<T(==)>(column: T, given: Option<T>, default: T) {
    column == if given.Some? then given.value else default
  }

  // ---------------------------------------------------------------------------
  // Enumerations
  // ---------------------------------------------------------------------------

  datatype MemberRole = Owner | Coach | Runner
  datatype MemberStatus = Active | Inactive | PendingPayment
  datatype AttendanceStatus = Registered | Attended | Skipped

  function RoleName(r: MemberRole): string {
    match r
    case Owner => "owner"
    case Coach => "coach"
    case Runner => "runner"
  }

  function StatusName(s: MemberStatus): string {
    match s
    case Active => "active"
    case Inactive => "inactive"
    case PendingPayment => "pending_payment"
  }

  function AttendanceName(a: AttendanceStatus): string {
    match a
    case Registered => "registered"
    case Attended => "attended"
    case Skipped => "skipped"
  }

  /** The `member_role` values are exactly "owner", "coach" and "runner". */
  function ParseRole(s: string): (r: Option<MemberRole>)
    ensures r.Some? <==> s == "owner" || s == "coach" || s == "runner"
    ensures r.Some? ==> RoleName(r.value) == s
  {
    if s == "owner" then Some(Owner)
    else if s == "coach" then Some(Coach)
    else if s == "runner" then Some(Runner)
    else None
  }

  /** The `member_status` values are exactly "active", "inactive" and "pending_payment". */
  function ParseStatus(s: string): (r: Option<MemberStatus>)
    ensures r.Some? <==> s == "active" || s == "inactive" || s == "pending_payment"
    ensures r.Some? ==> StatusName(r.value) == s
  {
    if s == "active" then Some(Active)
    else if s == "inactive" then Some(Inactive)
    else if s == "pending_payment" then Some(PendingPayment)
    else None
  }

  /** The `attendance_status` values are exactly "registered", "attended" and "skipped". */
  function ParseAttendance(s: string): (r: Option<AttendanceStatus>)
    ensures r.Some? <==> s == "registered" || s == "attended" || s == "skipped"
    ensures r.Some? ==> AttendanceName(r.value) == s
  {
    if s == "registered" then Some(Registered)
    else if s == "attended" then Some(Attended)
    else if s == "skipped" then Some(Skipped)
    else None
  }

  /** Every enumeration value is written as its own, distinct name. */
  lemma EnumNamesRoundTrip(r: MemberRole, s: MemberStatus, a: AttendanceStatus)
    ensures ParseRole(RoleName(r)) == Some(r)
    ensures ParseStatus(StatusName(s)) == Some(s)
    ensures ParseAttendance(AttendanceName(a)) == Some(a)
  {
  }

  // ---------------------------------------------------------------------------
  // profiles
  // ---------------------------------------------------------------------------

  datatype Profile = Profile(
    id: Uuid,
    email: Option<string>,
    fullName: Option<string>,
    avatarUrl: Option<string>,
    stravaAccessToken: Option<string>,
    stravaRefreshToken: Option<string>,
    createdAt: Timestamp,
    updatedAt: Option<Timestamp>)

  datatype ProfileInsert = ProfileInsert(
    id: Uuid,
    email: Option<Option<string>>,
    fullName: Option<Option<string>>,
    avatarUrl: Option<Option<string>>,
    stravaAccessToken: Option<Option<string>>,
    stravaRefreshToken: Option<Option<string>>,
    createdAt: Option<Timestamp>,
    updatedAt: Option<Option<Timestamp>>)

  datatype ProfileUpdate = ProfileUpdate(
    email: Option<Option<string>>,
    fullName: Option<Option<string>>,
    avatarUrl: Option<Option<string>>,
    stravaAccessToken: Option<Option<string>>,
    stravaRefreshToken: Option<Option<string>>,
    updatedAt: Option<Option<Timestamp>>)

  /** The row a profile Insert creates: the id is the auth user's, nullable columns default to null. */
  function CompleteProfile(ins: ProfileInsert, gen: Generated): (p: Profile)
    ensures p.id == ins.id
    ensures Takes(p.email, ins.email, None) && Takes(p.fullName, ins.fullName, None)
    ensures Takes(p.avatarUrl, ins.avatarUrl, None)
    ensures Takes(p.stravaAccessToken, ins.stravaAccessToken, None)
    ensures Takes(p.stravaRefreshToken, ins.stravaRefreshToken, None)
    ensures Takes(p.createdAt, ins.createdAt, gen.now) && Takes(p.updatedAt, ins.updatedAt, None)
  {
    Profile(ins.id, ins.email.GetOr(None), ins.fullName.GetOr(None), ins.avatarUrl.GetOr(None),
            ins.stravaAccessToken.GetOr(None), ins.stravaRefreshToken.GetOr(None),
            ins.createdAt.GetOr(gen.now), ins.updatedAt.GetOr(None))
  }

  /** A profile Update never touches `id` or `created_at`; an absent field keeps its column. */
  function UpdateProfile(p: Profile, u: ProfileUpdate): (r: Profile)
    ensures r.id == p.id && r.createdAt == p.createdAt
    ensures Takes(r.email, u.email, p.email) && Takes(r.fullName, u.fullName, p.fullName)
    ensures Takes(r.avatarUrl, u.avatarUrl, p.avatarUrl)
    ensures Takes(r.stravaAccessToken, u.stravaAccessToken, p.stravaAccessToken)
    ensures Takes(r.stravaRefreshToken, u.stravaRefreshToken, p.stravaRefreshToken)
    ensures Takes(r.updatedAt, u.updatedAt, p.updatedAt)
  {
    p.(email := u.email.GetOr(p.email), fullName := u.fullName.GetOr(p.fullName),
       avatarUrl := u.avatarUrl.GetOr(p.avatarUrl),
       stravaAccessToken := u.stravaAccessToken.GetOr(p.stravaAccessToken),
       stravaRefreshToken := u.stravaRefreshToken.GetOr(p.stravaRefreshToken),
       updatedAt := u.updatedAt.GetOr(p.updatedAt))
  }

  /** The Update that sets every updatable column to `target`'s value. */
  function ProfileUpdateTo(target: Profile): ProfileUpdate {
    ProfileUpdate(Some(target.email), Some(target.fullName), Some(target.avatarUrl),
                  Some(target.stravaAccessToken), Some(target.stravaRefreshToken),
                  Some(target.updatedAt))
  }

  /** Some Update turns `p` into `q` exactly when the two agree on `id` and `created_at`. */
  lemma ProfileUpdateReach(p: Profile, q: Profile)
    ensures (exists u :: UpdateProfile(p, u) == q) <==> p.id == q.id && p.createdAt == q.createdAt
  {
    if p.id == q.id && p.createdAt == q.createdAt {
      assert UpdateProfile(p, ProfileUpdateTo(q)) == q;
    }
  }

  // ---------------------------------------------------------------------------
  // clubs
  // ---------------------------------------------------------------------------

  const DefaultBrandingColor := "#000000"

  datatype Club = Club(
    id: Uuid,
    name: string,
    slug: string,
    description: Option<string>,
    logoUrl: Option<string>,
    brandingColor: string,
    createdAt: Timestamp)

  datatype ClubInsert = ClubInsert(
    id: Option<Uuid>,
    name: string,
    slug: string,
    description: Option<Option<string>>,
    logoUrl: Option<Option<string>>,
    brandingColor: Option<string>,
    createdAt: Option<Timestamp>)

  datatype ClubUpdate = ClubUpdate(
    name: Option<string>,
    slug: Option<string>,
    description: Option<Option<string>>,
    logoUrl: Option<Option<string>>,
    brandingColor: Option<string>)

  /** The row a club Insert creates; the branding colour defaults to '#000000'. */
  function CompleteClub(ins: ClubInsert, gen: Generated): (c: Club)
    ensures c.name == ins.name && c.slug == ins.slug
    ensures Takes(c.id, ins.id, gen.id) && Takes(c.createdAt, ins.createdAt, gen.now)
    ensures Takes(c.description, ins.description, None) && Takes(c.logoUrl, ins.logoUrl, None)
    ensures Takes(c.brandingColor, ins.brandingColor, DefaultBrandingColor)
  {
    Club(ins.id.GetOr(gen.id), ins.name, ins.slug, ins.description.GetOr(None),
         ins.logoUrl.GetOr(None), ins.brandingColor.GetOr(DefaultBrandingColor),
         ins.createdAt.GetOr(gen.now))
  }

  /** A club Update never touches `id` or `created_at`; an absent field keeps its column. */
  function UpdateClub(c: Club, u: ClubUpdate): (r: Club)
    ensures r.id == c.id && r.createdAt == c.createdAt
    ensures Takes(r.name, u.name, c.name) && Takes(r.slug, u.slug, c.slug)
    ensures Takes(r.description, u.description, c.description)
    ensures Takes(r.logoUrl, u.logoUrl, c.logoUrl)
    ensures Takes(r.brandingColor, u.brandingColor, c.brandingColor)
  {
    c.(name := u.name.GetOr(c.name), slug := u.slug.GetOr(c.slug),
       description := u.description.GetOr(c.description), logoUrl := u.logoUrl.GetOr(c.logoUrl),
       brandingColor := u.brandingColor.GetOr(c.brandingColor))
  }

  function ClubUpdateTo(target: Club): ClubUpdate {
    ClubUpdate(Some(target.name), Some(target.slug), Some(target.description),
               Some(target.logoUrl), Some(target.brandingColor))
  }

  /** Some Update turns `c` into `d` exactly when the two agree on `id` and `created_at`. */
  lemma ClubUpdateReach(c: Club, d: Club)
    ensures (exists u :: UpdateClub(c, u) == d) <==> c.id == d.id && c.createdAt == d.createdAt
  {
    if c.id == d.id && c.createdAt == d.createdAt {
      assert UpdateClub(c, ClubUpdateTo(d)) == d;
    }
  }

  // ---------------------------------------------------------------------------
  // memberships
  // ---------------------------------------------------------------------------

  datatype Membership = Membership(
    id: Uuid,
    userId: Uuid,
    clubId: Uuid,
    role: MemberRole,
    status: MemberStatus,
    joinedAt: Timestamp)

  datatype MembershipInsert = MembershipInsert(
    id: Option<Uuid>,
    userId: Uuid,
    clubId: Uuid,
    role: Option<MemberRole>,
    status: Option<MemberStatus>,
    joinedAt: Option<Timestamp>)

  datatype MembershipUpdate = MembershipUpdate(role: Option<MemberRole>, status: Option<MemberStatus>)

  /** The row a membership Insert creates; role defaults to runner, status to pending_payment. */
  function CompleteMembership(ins: MembershipInsert, gen: Generated): (m: Membership)
    ensures m.userId == ins.userId && m.clubId == ins.clubId
    ensures Takes(m.id, ins.id, gen.id) && Takes(m.joinedAt, ins.joinedAt, gen.now)
    ensures Takes(m.role, ins.role, Runner) && Takes(m.status, ins.status, PendingPayment)
  {
    Membership(ins.id.GetOr(gen.id), ins.userId, ins.clubId, ins.role.GetOr(Runner),
               ins.status.GetOr(PendingPayment), ins.joinedAt.GetOr(gen.now))
  }

  /** A membership Update changes at most `role` and `status`. */
  function UpdateMembership(m: Membership, u: MembershipUpdate): (r: Membership)
    ensures r.id == m.id && r.userId == m.userId && r.clubId == m.clubId && r.joinedAt == m.joinedAt
    ensures Takes(r.role, u.role, m.role) && Takes(r.status, u.status, m.status)
  {
    m.(role := u.role.GetOr(m.role), status := u.status.GetOr(m.status))
  }

  function MembershipUpdateTo(target: Membership): MembershipUpdate {
    MembershipUpdate(Some(target.role), Some(target.status))
  }

  /**
   * Some Update turns `m` into `n` exactly when the two agree on `id`,
   * `user_id`, `club_id` and `joined_at`.
   */
  lemma MembershipUpdateReach(m: Membership, n: Membership)
    ensures (exists u :: UpdateMembership(m, u) == n)
      <==> m.id == n.id && m.userId == n.userId && m.clubId == n.clubId && m.joinedAt == n.joinedAt
  {
    if m.id == n.id && m.userId == n.userId && m.clubId == n.clubId && m.joinedAt == n.joinedAt {
      assert UpdateMembership(m, MembershipUpdateTo(n)) == n;
    }
  }

  // ---------------------------------------------------------------------------
  // events
  // ---------------------------------------------------------------------------

  datatype Event = Event(
    id: Uuid,
    clubId: Uuid,
    title: string,
    description: Option<string>,
    startTime: Timestamp,
    locationName: Option<string>,
    locationCoords: Option<Coords>,
    gpxFileUrl: Option<string>,
    createdBy: Option<Uuid>,
    createdAt: Timestamp)

  datatype EventInsert = EventInsert(
    id: Option<Uuid>,
    clubId: Uuid,
    title: string,
    description: Option<Option<string>>,
    startTime: Timestamp,
    locationName: Option<Option<string>>,
    locationCoords: Option<Option<Coords>>,
    gpxFileUrl: Option<Option<string>>,
    createdBy: Option<Option<Uuid>>,
    createdAt: Option<Timestamp>)

  datatype EventUpdate = EventUpdate(
    title: Option<string>,
    description: Option<Option<string>>,
    startTime: Option<Timestamp>,
    locationName: Option<Option<string>>,
    locationCoords: Option<Option<Coords>>,
    gpxFileUrl: Option<Option<string>>)

  /** The row an event Insert creates; nullable columns default to null. */
  function CompleteEvent(ins: EventInsert, gen: Generated): (e: Event)
    ensures e.clubId == ins.clubId && e.title == ins.title && e.startTime == ins.startTime
    ensures Takes(e.id, ins.id, gen.id) && Takes(e.createdAt, ins.createdAt, gen.now)
    ensures Takes(e.description, ins.description, None)
    ensures Takes(e.locationName, ins.locationName, None)
    ensures Takes(e.locationCoords, ins.locationCoords, None)
    ensures Takes(e.gpxFileUrl, ins.gpxFileUrl, None) && Takes(e.createdBy, ins.createdBy, None)
  {
    Event(ins.id.GetOr(gen.id), ins.clubId, ins.title, ins.description.GetOr(None), ins.startTime,
          ins.locationName.GetOr(None), ins.locationCoords.GetOr(None), ins.gpxFileUrl.GetOr(None),
          ins.createdBy.GetOr(None), ins.createdAt.GetOr(gen.now))
  }

  /** An event Update never touches `id`, `club_id`, `created_by` or `created_at`. */
  function UpdateEvent(e: Event, u: EventUpdate): (r: Event)
    ensures r.id == e.id && r.clubId == e.clubId && r.createdBy == e.createdBy
    ensures r.createdAt == e.createdAt
    ensures Takes(r.title, u.title, e.title) && Takes(r.description, u.description, e.description)
    ensures Takes(r.startTime, u.startTime, e.startTime)
    ensures Takes(r.locationName, u.locationName, e.locationName)
    ensures Takes(r.locationCoords, u.locationCoords, e.locationCoords)
    ensures Takes(r.gpxFileUrl, u.gpxFileUrl, e.gpxFileUrl)
  {
    e.(title := u.title.GetOr(e.title), description := u.description.GetOr(e.description),
       startTime := u.startTime.GetOr(e.startTime),
       locationName := u.locationName.GetOr(e.locationName),
       locationCoords := u.locationCoords.GetOr(e.locationCoords),
       gpxFileUrl := u.gpxFileUrl.GetOr(e.gpxFileUrl))
  }

  function EventUpdateTo(target: Event): EventUpdate {
    EventUpdate(Some(target.title), Some(target.description), Some(target.startTime),
                Some(target.locationName), Some(target.locationCoords), Some(target.gpxFileUrl))
  }

  /**
   * Some Update turns `e` into `f` exactly when the two agree on `id`,
   * `club_id`, `created_by` and `created_at`.
   */
  lemma EventUpdateReach(e: Event, f: Event)
    ensures (exists u :: UpdateEvent(e, u) == f)
      <==> e.id == f.id && e.clubId == f.clubId && e.createdBy == f.createdBy && e.createdAt == f.createdAt
  {
    if e.id == f.id && e.clubId == f.clubId && e.createdBy == f.createdBy && e.createdAt == f.createdAt {
      assert UpdateEvent(e, EventUpdateTo(f)) == f;
    }
  }

  // ---------------------------------------------------------------------------
  // attendance
  // ---------------------------------------------------------------------------

  datatype Attendance = Attendance(
    id: Uuid,
    eventId: Uuid,
    userId: Uuid,
    status: AttendanceStatus,
    checkInTime: Option<Timestamp>,
    notes: Option<string>)

  datatype AttendanceInsert = AttendanceInsert(
    id: Option<Uuid>,
    eventId: Uuid,
    userId: Uuid,
    status: Option<AttendanceStatus>,
    checkInTime: Option<Option<Timestamp>>,
    notes: Option<Option<string>>)

  datatype AttendanceUpdate = AttendanceUpdate(
    status: Option<AttendanceStatus>,
    checkInTime: Option<Option<Timestamp>>,
    notes: Option<Option<string>>)

  /** The row an attendance Insert creates; the status defaults to registered. */
  function CompleteAttendance(ins: AttendanceInsert, gen: Generated): (a: Attendance)
    ensures a.eventId == ins.eventId && a.userId == ins.userId
    ensures Takes(a.id, ins.id, gen.id) && Takes(a.status, ins.status, Registered)
    ensures Takes(a.checkInTime, ins.checkInTime, None) && Takes(a.notes, ins.notes, None)
  {
    Attendance(ins.id.GetOr(gen.id), ins.eventId, ins.userId, ins.status.GetOr(Registered),
               ins.checkInTime.GetOr(None), ins.notes.GetOr(None))
  }

  /** An attendance Update never touches `id`, `event_id` or `user_id`. */
  function UpdateAttendance(a: Attendance, u: AttendanceUpdate): (r: Attendance)
    ensures r.id == a.id && r.eventId == a.eventId && r.userId == a.userId
    ensures Takes(r.status, u.status, a.status) && Takes(r.checkInTime, u.checkInTime, a.checkInTime)
    ensures Takes(r.notes, u.notes, a.notes)
  {
    a.(status := u.status.GetOr(a.status), checkInTime := u.checkInTime.GetOr(a.checkInTime),
       notes := u.notes.GetOr(a.notes))
  }

  function AttendanceUpdateTo(target: Attendance): AttendanceUpdate {
    AttendanceUpdate(Some(target.status), Some(target.checkInTime), Some(target.notes))
  }

  /** Some Update turns `a` into `b` exactly when the two agree on `id`, `event_id` and `user_id`. */
  lemma AttendanceUpdateReach(a: Attendance, b: Attendance)
    ensures (exists u :: UpdateAttendance(a, u) == b)
      <==> a.id == b.id && a.eventId == b.eventId && a.userId == b.userId
  {
    if a.id == b.id && a.eventId == b.eventId && a.userId == b.userId {
      assert UpdateAttendance(a, AttendanceUpdateTo(b)) == b;
    }
  }
}
