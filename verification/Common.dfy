/** Small helpers shared by the other modules. */
module Common {

  datatype Option<+T> = None | Some(value: T)

  function One(b: bool): nat { if b then 1 else 0 }
}

/** A Redis sorted set with its optional deadline in ms; `C` is what a model keeps of its members. */
module StoredKey {
  import opened Common

  datatype Stored<C> = Missing | ZSet(content: C, deadline: Option<nat>)

  /** The key as a command at time `now` finds it: gone once its deadline has passed. */
  function Visible<C>(key: Stored<C>, now: nat): Stored<C> {
    if key.ZSet? && key.deadline.Some? && now > key.deadline.value then Missing else key
  }
}
