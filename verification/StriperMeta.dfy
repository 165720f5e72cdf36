/** The metadata attributes of the first object and the compound updates that set them. */
module StriperMeta {
  import opened Wrappers

  /** The striper.size, striper.allocated and striper.version attributes. */
  datatype Meta = Meta(size: nat, alloc: nat, version: nat)

  /** One asynchronous compound setxattr on the first object. */
  datatype Update = Update(size: Option<nat>, alloc: Option<nat>, version: nat)

  function Applied(m: Meta, u: Update): Meta {
    Meta(if u.size.Some? then u.size.value else m.size,
         if u.alloc.Some? then u.alloc.value else m.alloc,
         u.version)
  }
}
