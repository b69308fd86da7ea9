// Identifiers. The source uses UUIDs for notes, groups, tags and links and
// Longs for users; only their equality matters, so all are naturals here.
module Ids {
  type NoteId = nat
  type GroupId = nat
  type TagId = nat
  type LinkId = nat
  type UserId = nat
  type AttachmentId = nat
}
