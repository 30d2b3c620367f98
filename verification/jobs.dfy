/**
 * `running_flags`: the registry of started scripts. Each entry is a one-cell
 * list (`[False]`) handed to the script's thread, which polls it; stopping a
 * script sets the cell, and the script sees the change because the cell is
 * shared, not copied.
 */
module Jobs {
  /** The `[False]` cell a script polls as `stop_flag[0]`. */
  class Flag {
    var stopped: bool

    constructor ()
      ensures !stopped
    {
      stopped := false;
    }
  }

  class Registry {
    var flags: map<string, Flag>

    /** Different names hold different cells: every Run makes a fresh one. */
    ghost predicate Valid()
      reads this
    {
      forall a, b :: a in flags && b in flags && a != b ==> flags[a] != flags[b]
    }

    constructor ()
      ensures Valid() && flags == map[]
    {
      flags := map[];
    }

    /** `flag = [False]; running_flags[target] = flag`: the cell handed to the new script. */
    method Run(target: string) returns (flag: Flag)
      requires Valid()
      modifies this
      ensures Valid()
      ensures fresh(flag) && !flag.stopped
      ensures flags == old(flags)[target := flag]
    {
      flag := new Flag();
      flags := flags[target := flag];
    }

    /**
     * The stop route: `ALL` sets every registered cell, a registered name sets
     * its own cell, and an unknown name changes nothing. No cell is ever cleared.
     */
    method Stop(target: string)
      requires Valid()
      modifies set k | k in flags :: flags[k]
      ensures flags == old(flags)
      ensures forall k :: k in flags ==> flags[k].stopped == (old(flags[k].stopped) || target == "ALL" || k == target)
    {
      if target == "ALL" {
        var todo := flags.Keys;
        while todo != {}
          invariant todo <= flags.Keys
          invariant forall k :: k in flags ==> flags[k].stopped == (old(flags[k].stopped) || k !in todo)
          decreases |todo|
        {
          var k :| k in todo;
          flags[k].stopped := true;
          todo := todo - {k};
        }
      } else if target in flags {
        flags[target].stopped := true;
      }
    }
  }
}
