/**
 * The state of a lifetime source, as far as the perishable file registry
 * relies on it. A source starts alive; ending it makes it ended, immortalizing
 * it makes it immortal, and neither terminal state can be left again.
 */
module Lifetimes {

  /** Alive: may still end. Ended: the file is gone. Immortal: will never end. */
  datatype LifeState = Alive | Ended | Immortal

  /** EndLifetime: ends the source unless it was made immortal first. */
  function End(s: LifeState): (r: LifeState)
    ensures r.Ended? <==> !s.Immortal?
    ensures r.Immortal? <==> s.Immortal?
  {
    if s.Alive? then Ended else s
  }

  /** ImmortalizeLifetime: the source will never end, unless it already has. */
  function Immortalize(s: LifeState): (r: LifeState)
    ensures r.Immortal? <==> !s.Ended?
    ensures r.Ended? <==> s.Ended?
  {
    if s.Alive? then Immortal else s
  }

  /**
   * Ending twice is ending once, ending an immortal source changes nothing,
   * and neither terminal state is ever left again.
   */
  lemma Transitions(s: LifeState)
    ensures End(End(s)) == End(s)
    ensures Immortalize(Immortalize(s)) == Immortalize(s)
    ensures End(Immortalize(s)) == Immortalize(s)
    ensures !s.Alive? ==> End(s) == s && Immortalize(s) == s
  {
  }
}
