/** Small things that several modules share. */
module Collections {

  datatype Option<T> = None | Some(value: T)

  /** The pieces joined. */
  function Flatten<T>(pieces: seq<seq<T>>): seq<T> {
    if pieces == [] then [] else pieces[0] + Flatten(pieces[1..])
  }

  function Min(a: int, b: int): int {
    if a <= b then a else b
  }
}
