/** One node's view of the shared pages: the coherence state of every page and
    the C string that starts each page, with the local pieces of work the two
    threads of a node perform on them. */
module MsiCache {

  datatype State = M | S | I

  datatype Cache = Cache(state: seq<State>, text: seq<string>) {
    predicate Holds(n: nat) {
      |state| == n && |text| == n
    }
  }

  const NULL_REPLY := "NULL"
  const SUCCESS_REPLY := "Success"

  function SetState(c: Cache, page: nat, st: State): Cache
    requires page < |c.state|
  {
    c.(state := c.state[page := st])
  }

  function SetText(c: Cache, page: nat, text: string): Cache
    requires page < |c.text|
  {
    c.(text := c.text[page := text])
  }

  /** `madvise(MADV_DONTNEED)`: the next touch of the page finds zeros. */
  function Drop(c: Cache, page: nat): Cache
    requires page < |c.text|
  {
    SetText(c, page, "")
  }

  /** `transitionStateOnRead`, and the state change inside `getResponse`. */
  function Demote(c: Cache, page: nat): Cache
    requires page < |c.state|
  {
    if c.state[page].M? then SetState(c, page, S) else c
  }

  /** Does `getResponse` hand out the page itself, rather than the text "NULL"? */
  predicate Serves(c: Cache, page: nat)
    requires page < |c.state|
  {
    !c.state[page].I?
  }
}
