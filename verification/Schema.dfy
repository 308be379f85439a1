/** The tables of the service (migrations/00001_initial_schema.sql) and its object store. Times
    are ticks of one clock that never stands still. */
module Schema {
  import opened Wrappers
  import opened Uuids

  /** The largest value of the `integer` column `notes.version`. */
  const MAX_VERSION := 0x7FFF_FFFF

  datatype User = User(email: string, displayName: string, deletedAt: Option<int>)

  datatype Team = Team(name: string)

  datatype MemberRole = Member | Admin

  datatype Membership = Membership(team: Uuid, user: Uuid)

  datatype Note = Note(
    owner: Uuid, title: string, body: string, tags: seq<string>, version: int,
    createdAt: int, updatedAt: int, deletedAt: Option<int>
  )

  /** `principal_id` names a user or a team, and no foreign key covers it. */
  datatype Principal = UserPrincipal(id: Uuid) | TeamPrincipal(id: Uuid)

  datatype GrantKey = GrantKey(note: Uuid, principal: Principal)

  datatype Grant = Grant(role: string, grantedBy: Uuid, createdAt: int)

  datatype Status = Pending | Ready

  datatype Attachment = Attachment(
    note: Uuid, objectKey: string, filename: string, mimeType: string, size: int,
    checksum: Option<string>, status: Status, uploadedBy: Uuid, createdAt: int, readyAt: Option<int>
  )

  /** What `Stat` reports about a stored object. */
  datatype ObjectInfo = ObjectInfo(size: nat, etag: string)

  datatype Db = Db(
    users: map<Uuid, User>,
    teams: map<Uuid, Team>,
    members: map<Membership, MemberRole>,
    notes: map<Uuid, Note>,
    shares: map<GrantKey, Grant>,
    attachments: map<Uuid, Attachment>,
    objects: map<string, ObjectInfo>,
    now: int
  )

  const EMPTY := Db(map[], map[], map[], map[], map[], map[], map[], 0)

  /** Each request reads a later time than every request before it. */
  function Tick(db: Db): Db {
    db.(now := db.now + 1)
  }

  /** Size limit, accepted types and rune mapping: what the handlers are configured with. */
  datatype Config = Config(maxBytes: int, mimeAllowed: string -> bool, lower: char -> char)
}
