/** Content ids.

    SHA1 is taken to be injective: an id is the content that it is the hash of.  Ids are
    therefore well founded, as they are in a content-addressed store. */
module Merkle {
  import opened Wrappers

  type BlobId = string

  datatype Kind = ObjectKind | TreeKind | OtherKind

  datatype Ref = Ref(kind: Kind, id: Id)

  datatype Id =
    | ObjectId(name: string, meta: string, blob: Option<BlobId>)
    | TreeId(name: string, meta: string, entries: seq<Ref>)
}
