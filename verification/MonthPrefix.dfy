/**
 The per-thread memo of month tables behind `MonthsWithDay`: filling a table
 with a loop and forgetting all tables once too many are kept never changes
 what a lookup answers.
 */
module MonthPrefix {
  import opened Civil
  import opened Series

  const MONTH_PREFIX_KEEP: nat := 64

  class Cache {
    var tables: map<(nat, nat, int), seq<nat>>

    ghost predicate Valid()
      reads this
    {
      && |tables| <= MONTH_PREFIX_KEEP
      && forall k <- tables :: tables[k] == PrefixTable(k.0, k.1, k.2)
    }

    constructor ()
      ensures Valid() && tables == map[]
    {
      tables := map[];
    }

    method Lookup(m0: nat, step: nat, day: int) returns (prefix: seq<nat>)
      requires Valid()
      modifies this
      ensures Valid() && prefix == PrefixTable(m0, step, day)
      ensures (m0, step, day) in tables
    {
      hide CycleCount, CycleMonthHas, Period;
      var key := (m0, step, day);
      if key in tables {
        return tables[key];
      }
      prefix := FillTable(m0, step, day);
      if |tables| >= MONTH_PREFIX_KEEP {
        tables := map[];
      }
      tables := tables[key := prefix];
    }
  }

  lemma CountStep(m0: nat, step: nat, day: int, j: nat)
    ensures CycleCount(m0, step, day, 0) == 0
    ensures CycleCount(m0, step, day, j + 1) ==
            CycleCount(m0, step, day, j) + if CycleMonthHas((m0 + j * step) % CYCLE_MONTHS, day) then 1 else 0
  {
    hide CycleMonthHas;
  }

  lemma IsTable(m0: nat, step: nat, day: int, prefix: seq<nat>)
    requires |prefix| == Period(step) + 1 && forall i: nat :: i <= Period(step) ==> prefix[i] == CycleCount(m0, step, day, i)
    ensures prefix == PrefixTable(m0, step, day)
  {
    hide CycleCount, Period;
  }

  method FillTable(m0: nat, step: nat, day: int) returns (prefix: seq<nat>)
    ensures prefix == PrefixTable(m0, step, day)
  {
    hide CycleMonthHas, Gcd, CycleCount, PrefixTable;
    var period := CYCLE_MONTHS / Gcd(step, CYCLE_MONTHS);
    var c := 0;
    prefix := [c];
    CountStep(m0, step, day, 0);
    for j := 0 to period
      invariant |prefix| == j + 1 && c == CycleCount(m0, step, day, j)
      invariant forall i: nat :: i <= j ==> prefix[i] == CycleCount(m0, step, day, i)
    {
      CountStep(m0, step, day, j);
      var a := (m0 + j * step) % CYCLE_MONTHS;
      if CycleMonthHas(a, day) {
        c := c + 1;
      }
      prefix := prefix + [c];
    }
    IsTable(m0, step, day, prefix);
  }
}
