/** The two result types every module shares. */
module Options {

  datatype Option<+T> = None | Some(value: T)

  /** How a step on the disk ended. Stopped covers a kill and an I/O
      error: the step may or may not have taken effect, and nothing after it
      ran. Refused is an error the program raises itself, before acting. */
  datatype Outcome = Done | Stopped | Refused {
    predicate IsFailure() {
      !Done?
    }

    function PropagateFailure(): Outcome
      requires IsFailure()
    {
      this
    }
  }

  /** A step that was reached may still end in a kill or an I/O error. */
  method Survives() returns (o: Outcome)
    ensures !o.Refused?
  {
    if * {
      return Stopped;
    }
    return Done;
  }

  function Lookup<K, V>(m: map<K, V>, k: K): Option<V> {
    if k in m then Some(m[k]) else None
  }
}
