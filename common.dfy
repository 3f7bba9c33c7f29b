/** Optional values: the model's stand-in for a C# `null` result. */
module Options {
  datatype Option<T> = None | Some(value: T)
}

/** The game engine's entities, reduced to what the core compares: identity. */
module Verse {
  /** A colonist. The core only ever tests pawns for equality, so a pawn is an opaque id. */
  datatype Pawn = Pawn(id: nat)
}
