/**
 * The greedy change dispenser of the change machine (centsToBills) and the
 * rule of its main loop: serve amounts one after the other and stop at the
 * first amount that the inventory cannot cover.
 *
 * The machine holds five denominations, $10 bills, toonies, quarters, dimes
 * and pennies, in slots 1 to 5 of two six-element arrays (slot 0 is never
 * used). Amounts are cents; C's int arithmetic is modelled by unbounded
 * integers, with C's truncating division written out.
 */
module ChangeMachine {
  import opened Wrappers

  /** Denomination values in cents, in the order they are tried. */
  const Denominations: seq<int> := [1000, 200, 25, 10, 1]

  /** Number of denominations; the arrays carry one more, unused, slot 0. */
  const Slots: nat := 5

  /** The value of the i-th denomination tried. */
  function Denomination(i: nat): (d: int)
    requires i < Slots
    ensures d > 0
  {
    Denominations[i]
  }

  /** C's integer division of a by d > 0, which truncates toward zero. */
  function Quot(a: int, d: int): int
    requires d > 0
  {
    if a >= 0 then a / d else -((-a) / d)
  }

  /**
   * The quotient is rounded toward zero: the remainder has the sign of a and
   * is smaller than d, and negating a negates the quotient.
   */
  lemma QuotTruncates(a: int, d: int)
    requires d > 0
    ensures a >= 0 ==> 0 <= Quot(a, d) && 0 <= a - Quot(a, d) * d < d
    ensures a < 0 ==> Quot(a, d) <= 0 && -d < a - Quot(a, d) * d <= 0
    ensures Quot(-a, d) == -Quot(a, d)
  {
    if a >= 0 {
      assert a == (a / d) * d + a % d;
    } else {
      assert -a == ((-a) / d) * d + (-a) % d;
    }
  }

  /**
   * The number of pieces of value d handed out when c cents are owed and the
   * slot holds have pieces: as many as c calls for, but no more than are there.
   */
  function Take(c: int, have: int, d: int): (n: int)
    requires d > 0
    ensures n <= have && n <= Quot(c, d)
    ensures n == have || n == Quot(c, d)
  {
    if Quot(c, d) <= have then Quot(c, d) else have
  }

  /** The cents still owed before slot n is served. */
  function Owed(cents: int, inv: seq<int>, n: nat): int
    requires n <= |inv| <= Slots
  {
    if n == 0 then cents
    else
      var c := Owed(cents, inv, n - 1);
      c - Take(c, inv[n - 1], Denomination(n - 1)) * Denomination(n - 1)
  }

  /** The pieces handed out from slot i. */
  function Given(cents: int, inv: seq<int>, i: nat): int
    requires i < |inv| <= Slots
  {
    Take(Owed(cents, inv, i), inv[i], Denomination(i))
  }

  /** The pieces handed out from every slot. */
  function Dispensed(cents: int, inv: seq<int>): (out: seq<int>)
    requires |inv| == Slots
    ensures |out| == Slots
  {
    seq(Slots, i requires 0 <= i < Slots => Given(cents, inv, i))
  }

  /** The inventory after the amount was served. */
  function Remaining(cents: int, inv: seq<int>): (out: seq<int>)
    requires |inv| == Slots
    ensures |out| == Slots
  {
    seq(Slots, i requires 0 <= i < Slots => inv[i] - Given(cents, inv, i))
  }

  /** The cents the machine could not hand out. */
  function Leftover(cents: int, inv: seq<int>): int
    requires |inv| == Slots
  {
    Owed(cents, inv, Slots)
  }

  /** The worth in cents of counts of pieces, slot by slot. */
  function Value(counts: seq<int>): int
    requires |counts| <= Slots
  {
    if counts == [] then 0
    else Value(counts[..|counts| - 1]) + counts[|counts| - 1] * Denomination(|counts| - 1)
  }

  /** base with slots 1..n set to the first n of vals: the array after n rounds of the loop. */
  function Fill(base: seq<int>, vals: seq<int>, n: nat): (r: seq<int>)
    requires n <= |vals| && n < |base|
    ensures |r| == |base|
  {
    if n == 0 then base else Fill(base, vals, n - 1)[n := vals[n - 1]]
  }

  /** Filling sets slots 1..n and leaves the others as they were. */
  lemma {:induction false} FillSlots(base: seq<int>, vals: seq<int>, n: nat)
    requires n <= |vals| && n < |base|
    ensures forall j :: 1 <= j <= n ==> Fill(base, vals, n)[j] == vals[j - 1]
    ensures forall j :: 0 <= j < |base| && !(1 <= j <= n) ==> Fill(base, vals, n)[j] == base[j]
    decreases n
  {
    if n > 0 {
      FillSlots(base, vals, n - 1);
    }
  }

  /**
   * Dispenses cents from the inventory: slot i + 1 of arr receives the pieces
   * handed out and slot i + 1 of inventory loses them, for the denominations
   * in order; the result is what is still owed.
   */
  method CentsToBills(cents: int, arr: array<int>, inventory: array<int>) returns (leftOver: int)
    requires arr.Length >= Slots + 1 && inventory.Length >= Slots + 1 && arr != inventory
    modifies arr, inventory
    ensures leftOver == Leftover(cents, old(inventory[1..Slots + 1]))
    ensures arr[1..Slots + 1] == Dispensed(cents, old(inventory[1..Slots + 1]))
    ensures inventory[1..Slots + 1] == Remaining(cents, old(inventory[1..Slots + 1]))
    ensures arr[0] == old(arr[0]) && arr[Slots + 1..] == old(arr[Slots + 1..])
    ensures inventory[0] == old(inventory[0]) && inventory[Slots + 1..] == old(inventory[Slots + 1..])
  {
    ghost var inv := inventory[1..Slots + 1];
    ghost var given := Dispensed(cents, inv);
    ghost var left := Remaining(cents, inv);
    leftOver := cents;
    for i := 0 to Slots
      invariant leftOver == Owed(cents, inv, i)
      invariant arr[..] == Fill(old(arr[..]), given, i)
      invariant inventory[..] == Fill(old(inventory[..]), left, i)
    {
      FillSlots(old(inventory[..]), left, i);
      assert inventory[i + 1] == inv[i];
      leftOver := ServeSlot(i, leftOver, arr, inventory);
    }
    FillAll(old(arr[..]), given);
    FillAll(old(inventory[..]), left);
  }

  /**
   * The body of the dispensing loop for slot i + 1: the pieces that cover
   * what is owed if the slot holds enough of them, else all it holds.
   */
  method ServeSlot(i: nat, owed: int, arr: array<int>, inventory: array<int>) returns (leftOver: int)
    requires i < Slots && arr.Length >= Slots + 1 && inventory.Length >= Slots + 1 && arr != inventory
    modifies arr, inventory
    ensures var n := Take(owed, old(inventory[i + 1]), Denomination(i));
      && arr[..] == old(arr[..])[i + 1 := n]
      && inventory[..] == old(inventory[..])[i + 1 := old(inventory[i + 1]) - n]
      && leftOver == owed - n * Denomination(i)
  {
    var denomination := Denomination(i);
    var required := Quot(owed, denomination);
    if required <= inventory[i + 1] {
      arr[i + 1] := required;
      inventory[i + 1] := inventory[i + 1] - required;
      leftOver := owed - required * denomination;
    } else {
      arr[i + 1] := inventory[i + 1];
      leftOver := owed - inventory[i + 1] * denomination;
      inventory[i + 1] := 0;
    }
  }

  /** After all five rounds, slots 1..5 hold vals and slot 0 and the slots past 5 are as they were. */
  lemma FillAll(base: seq<int>, vals: seq<int>)
    requires |vals| == Slots && |base| > Slots
    ensures Fill(base, vals, Slots)[1..Slots + 1] == vals
    ensures Fill(base, vals, Slots)[0] == base[0] && Fill(base, vals, Slots)[Slots + 1..] == base[Slots + 1..]
  {
    FillSlots(base, vals, Slots);
  }

  // ---------------------------------------------------------------------
  // What one call promises.

  /** The running amount owed plus the worth of what slots 0..n-1 handed out is the amount asked for. */
  lemma {:induction false} OwedPlusPaid(cents: int, inv: seq<int>, n: nat)
    requires |inv| == Slots && n <= Slots
    ensures Owed(cents, inv, n) + Value(Dispensed(cents, inv)[..n]) == cents
    decreases n
  {
    if n > 0 {
      OwedPlusPaid(cents, inv, n - 1);
      assert Dispensed(cents, inv)[..n][..n - 1] == Dispensed(cents, inv)[..n - 1];
    }
  }

  /** No cent is lost: what is left owed plus the worth of the change is the amount. */
  lemma Conservation(cents: int, inv: seq<int>)
    requires |inv| == Slots
    ensures Leftover(cents, inv) + Value(Dispensed(cents, inv)) == cents
  {
    OwedPlusPaid(cents, inv, Slots);
    assert Dispensed(cents, inv)[..Slots] == Dispensed(cents, inv);
  }

  /** Worth is additive slot by slot. */
  lemma {:induction false} ValueAdd(a: seq<int>, b: seq<int>, c: seq<int>)
    requires |a| == |b| == |c| <= Slots
    requires forall i :: 0 <= i < |c| ==> c[i] == a[i] + b[i]
    ensures Value(c) == Value(a) + Value(b)
    decreases |c|
  {
    if c != [] {
      var n := |c| - 1;
      ValueAdd(a[..n], b[..n], c[..n]);
      assert c[n] * Denomination(n) == a[n] * Denomination(n) + b[n] * Denomination(n);
    }
  }

  /**
   * Every piece handed out leaves the inventory: slot by slot the old count
   * is the new count plus the pieces given, so the machine's worth drops by
   * exactly the worth of the change.
   */
  lemma StockConservation(cents: int, inv: seq<int>)
    requires |inv| == Slots
    ensures forall i :: 0 <= i < Slots ==> inv[i] == Remaining(cents, inv)[i] + Dispensed(cents, inv)[i]
    ensures Value(inv) == Value(Remaining(cents, inv)) + Value(Dispensed(cents, inv))
  {
    ValueAdd(Remaining(cents, inv), Dispensed(cents, inv), inv);
  }

  lemma MulMonotone(a: int, b: int, d: int)
    requires a <= b && d > 0
    ensures a * d <= b * d
  {
    assert b * d - a * d == (b - a) * d;
  }

  /** Serving one slot from a non-negative amount and stock hands out between none and all that is owed. */
  lemma TakeBounds(c: int, have: int, d: int)
    requires c >= 0 && have >= 0 && d > 0
    ensures 0 <= Take(c, have, d) && 0 <= c - Take(c, have, d) * d <= c
  {
    QuotTruncates(c, d);
    var q := Quot(c, d);
    var n := Take(c, have, d);
    assert 0 <= n <= q;
    MulMonotone(n, q, d);
    MulMonotone(0, n, d);
  }

  /** From a non-negative amount and stock the amount owed never goes negative nor grows. */
  lemma {:induction false} OwedBounds(cents: int, inv: seq<int>, n: nat)
    requires |inv| == Slots && n <= Slots && cents >= 0
    requires forall i :: 0 <= i < Slots ==> inv[i] >= 0
    ensures 0 <= Owed(cents, inv, n) <= cents
    decreases n
  {
    if n > 0 {
      OwedBounds(cents, inv, n - 1);
      TakeBounds(Owed(cents, inv, n - 1), inv[n - 1], Denomination(n - 1));
    }
  }

  /**
   * Whatever the stock, even a negative count the prompt let through, the
   * amount owed never goes negative: a slot hands out at most the quotient,
   * and a negative count only adds to what is owed.
   */
  lemma {:induction false} OwedNonNegative(cents: int, inv: seq<int>, n: nat)
    requires |inv| == Slots && n <= Slots && cents >= 0
    ensures Owed(cents, inv, n) >= 0
    decreases n
  {
    if n > 0 {
      OwedNonNegative(cents, inv, n - 1);
      var c := Owed(cents, inv, n - 1);
      var d := Denomination(n - 1);
      QuotTruncates(c, d);
      MulMonotone(Take(c, inv[n - 1], d), Quot(c, d), d);
    }
  }

  /** A non-negative amount never leaves a negative amount unpaid, whatever the stock. */
  lemma LeftoverNonNegative(cents: int, inv: seq<int>)
    requires |inv| == Slots && cents >= 0
    ensures Leftover(cents, inv) >= 0
  {
    OwedNonNegative(cents, inv, Slots);
  }

  /**
   * From a non-negative amount and stock, no count goes negative: the change,
   * the stock left and the amount still owed, which is at most the amount.
   */
  lemma NonNegative(cents: int, inv: seq<int>)
    requires |inv| == Slots && cents >= 0
    requires forall i :: 0 <= i < Slots ==> inv[i] >= 0
    ensures forall i :: 0 <= i < Slots ==> 0 <= Dispensed(cents, inv)[i] <= inv[i]
    ensures forall i :: 0 <= i < Slots ==> Remaining(cents, inv)[i] >= 0
    ensures 0 <= Leftover(cents, inv) <= cents
  {
    forall i | 0 <= i < Slots ensures 0 <= Dispensed(cents, inv)[i] <= inv[i] {
      OwedBounds(cents, inv, i);
      TakeBounds(Owed(cents, inv, i), inv[i], Denomination(i));
    }
    OwedBounds(cents, inv, Slots);
  }

  /**
   * Each slot is greedy: it never hands out more than is owed, and either it
   * is emptied or what is still owed afterwards is less than one of its pieces.
   */
  lemma Greedy(cents: int, inv: seq<int>, i: nat)
    requires |inv| == Slots && i < Slots && cents >= 0
    requires forall j :: 0 <= j < Slots ==> inv[j] >= 0
    ensures Dispensed(cents, inv)[i] * Denomination(i) <= Owed(cents, inv, i)
    ensures Dispensed(cents, inv)[i] == inv[i] || Owed(cents, inv, i + 1) < Denomination(i)
  {
    OwedBounds(cents, inv, i);
    TakeBounds(Owed(cents, inv, i), inv[i], Denomination(i));
  }

  /**
   * From a non-negative amount and stock, the machine falls short exactly when
   * the pennies cannot cover what the larger pieces left owed; it then empties
   * the penny slot.
   */
  lemma ShortExactly(cents: int, inv: seq<int>)
    requires |inv| == Slots && cents >= 0
    requires forall i :: 0 <= i < Slots ==> inv[i] >= 0
    ensures Leftover(cents, inv) > 0 <==> inv[Slots - 1] < Owed(cents, inv, Slots - 1)
    ensures Leftover(cents, inv) > 0 ==> Remaining(cents, inv)[Slots - 1] == 0
  {
    OwedBounds(cents, inv, Slots - 1);
  }

  /** With at least as many pennies as the amount, the amount is always served in full. */
  lemma EnoughPennies(cents: int, inv: seq<int>)
    requires |inv| == Slots && cents >= 0
    requires forall i :: 0 <= i < Slots ==> inv[i] >= 0
    requires inv[Slots - 1] >= cents
    ensures Leftover(cents, inv) == 0
  {
    OwedBounds(cents, inv, Slots - 1);
    ShortExactly(cents, inv);
  }

  /**
   * A slot holding at least as many pieces as the whole amount would need
   * hands out the quotient of what is owed and leaves the remainder owed.
   */
  lemma FullSlot(cents: int, inv: seq<int>, i: nat)
    requires |inv| == Slots && i < Slots && cents >= 0
    requires forall j :: 0 <= j < Slots ==> inv[j] >= 0
    requires inv[i] >= cents / Denomination(i)
    ensures Given(cents, inv, i) == Owed(cents, inv, i) / Denomination(i)
    ensures Owed(cents, inv, i + 1) == Owed(cents, inv, i) % Denomination(i)
  {
    OwedBounds(cents, inv, i);
    DivMonotone(Owed(cents, inv, i), cents, Denomination(i));
  }

  /**
   * With enough of every piece, the change is the usual greedy breakdown:
   * as many $10 bills as fit, then toonies out of the rest, and so on, with
   * nothing left owed.
   */
  lemma FullStock(cents: int, inv: seq<int>)
    requires |inv| == Slots && cents >= 0
    requires forall i :: 0 <= i < Slots ==> inv[i] >= cents / Denomination(i)
    ensures var r1 := cents % 1000;
      var r2 := r1 % 200;
      var r3 := r2 % 25;
      Dispensed(cents, inv) == [cents / 1000, r1 / 200, r2 / 25, r3 / 10, r3 % 10]
    ensures Leftover(cents, inv) == 0
  {
    assert forall i :: 0 <= i < Slots ==> inv[i] >= 0 by {
      forall i | 0 <= i < Slots ensures inv[i] >= 0 {
        assert cents / Denomination(i) >= 0;
      }
    }
    var d := Dispensed(cents, inv);
    var r1 := cents % 1000;
    var r2 := r1 % 200;
    var r3 := r2 % 25;
    assert d[0] == cents / 1000 && Owed(cents, inv, 1) == r1 by { FullSlot(cents, inv, 0); }
    assert d[1] == r1 / 200 && Owed(cents, inv, 2) == r2 by { FullSlot(cents, inv, 1); }
    assert d[2] == r2 / 25 && Owed(cents, inv, 3) == r3 by { FullSlot(cents, inv, 2); }
    assert d[3] == r3 / 10 && Owed(cents, inv, 4) == r3 % 10 by { FullSlot(cents, inv, 3); }
    assert d[4] == r3 % 10 && Owed(cents, inv, 5) == 0 by { FullSlot(cents, inv, 4); }
  }

  lemma DivMonotone(a: int, b: int, d: int)
    requires 0 <= a <= b && d > 0
    ensures a / d <= b / d
  {
    if a / d > b / d {
      MulMonotone(b / d + 1, a / d, d);
    }
  }

  // ---------------------------------------------------------------------
  // The main loop: amounts are served one after the other until one cannot
  // be served in full. An amount of -1 is the prompt's marker for a negative
  // entry and is skipped.

  /** Where a run of the machine stands: still serving, or stopped at request at owing owed. */
  datatype Session = Serving(stock: seq<int>) | Stopped(stock: seq<int>, at: nat, owed: int)

  /** The session after the given requests, from inventory inv. */
  function Run(requests: seq<int>, inv: seq<int>): (s: Session)
    requires |inv| == Slots
    ensures |s.stock| == Slots
  {
    if requests == [] then Serving(inv)
    else
      match Run(requests[..|requests| - 1], inv)
      case Stopped(st, at, owed) => Stopped(st, at, owed)
      case Serving(st) =>
        var cents := requests[|requests| - 1];
        if cents == -1 then Serving(st)
        else if Leftover(cents, st) > 0 then Stopped(Remaining(cents, st), |requests| - 1, Leftover(cents, st))
        else Serving(Remaining(cents, st))
  }

  /**
   * What slots 1..5 of the change array hold after the requests: the change
   * for the last amount served, up to and including the one the machine
   * stopped at, or before when no amount was served.
   */
  function LastChange(requests: seq<int>, inv: seq<int>, before: seq<int>): seq<int>
    requires |inv| == Slots
  {
    if requests == [] then before
    else
      var r := requests[..|requests| - 1];
      var cents := requests[|requests| - 1];
      match Run(r, inv)
      case Stopped(_, _, _) => LastChange(r, inv, before)
      case Serving(st) => if cents == -1 then LastChange(r, inv, before) else Dispensed(cents, st)
  }

  /**
   * Serves the requests in order until one leaves something owed; returns
   * that request and the amount owed. Slots 1..5 of inventory end as the
   * session's stock and slots 1..5 of arr with the last change handed out.
   */
  method ServeRequests(requests: seq<int>, arr: array<int>, inventory: array<int>) returns (stop: Option<(nat, int)>)
    requires arr.Length >= Slots + 1 && inventory.Length >= Slots + 1 && arr != inventory
    modifies arr, inventory
    ensures inventory[1..Slots + 1] == Run(requests, old(inventory[1..Slots + 1])).stock
    ensures arr[1..Slots + 1] == LastChange(requests, old(inventory[1..Slots + 1]), old(arr[1..Slots + 1]))
    ensures arr[0] == old(arr[0]) && arr[Slots + 1..] == old(arr[Slots + 1..])
    ensures inventory[0] == old(inventory[0]) && inventory[Slots + 1..] == old(inventory[Slots + 1..])
    ensures stop.None? <==> Run(requests, old(inventory[1..Slots + 1])).Serving?
    ensures stop.Some? ==> stop.value == (Run(requests, old(inventory[1..Slots + 1])).at, Run(requests, old(inventory[1..Slots + 1])).owed)
  {
    ghost var inv := inventory[1..Slots + 1];
    ghost var before := arr[1..Slots + 1];
    var i := 0;
    while i < |requests|
      invariant i <= |requests|
      invariant Run(requests[..i], inv) == Serving(inventory[1..Slots + 1])
      invariant arr[1..Slots + 1] == LastChange(requests[..i], inv, before)
      invariant arr[0] == old(arr[0]) && arr[Slots + 1..] == old(arr[Slots + 1..])
      invariant inventory[0] == old(inventory[0]) && inventory[Slots + 1..] == old(inventory[Slots + 1..])
    {
      var cents := requests[i];
      assert requests[..i + 1][..i] == requests[..i];
      if cents != -1 {
        var leftOver := CentsToBills(cents, arr, inventory);
        if leftOver > 0 {
          StopsForGood(requests, i + 1, inv, before);
          return Some((i, leftOver));
        }
      }
      i := i + 1;
    }
    assert requests[..i] == requests;
    return None;
  }

  /** Once stopped, later requests change nothing. */
  lemma {:induction false} StoppedIsFinal(requests: seq<int>, more: seq<int>, inv: seq<int>)
    requires |inv| == Slots && Run(requests, inv).Stopped?
    ensures Run(requests + more, inv) == Run(requests, inv)
    decreases |more|
  {
    if more == [] {
      assert requests + more == requests;
    } else {
      var m := more[..|more| - 1];
      StoppedIsFinal(requests, m, inv);
      assert (requests + more)[..|requests + more| - 1] == requests + m;
    }
  }

  /** Once stopped, later requests leave the change array alone too. */
  lemma {:induction false} LastChangeFinal(requests: seq<int>, more: seq<int>, inv: seq<int>, before: seq<int>)
    requires |inv| == Slots && Run(requests, inv).Stopped?
    ensures LastChange(requests + more, inv, before) == LastChange(requests, inv, before)
    decreases |more|
  {
    if more == [] {
      assert requests + more == requests;
    } else {
      var m := more[..|more| - 1];
      LastChangeFinal(requests, m, inv, before);
      StoppedIsFinal(requests, m, inv);
      assert (requests + more)[..|requests + more| - 1] == requests + m;
    }
  }

  /** A stop after the first k requests is the outcome of all of them. */
  lemma StopsForGood(requests: seq<int>, k: nat, inv: seq<int>, before: seq<int>)
    requires |inv| == Slots && k <= |requests| && Run(requests[..k], inv).Stopped?
    ensures Run(requests, inv) == Run(requests[..k], inv)
    ensures LastChange(requests, inv, before) == LastChange(requests[..k], inv, before)
  {
    StoppedIsFinal(requests[..k], requests[k..], inv);
    LastChangeFinal(requests[..k], requests[k..], inv, before);
    assert requests[..k] + requests[k..] == requests;
  }

  /** After the stop the change array holds the partial change for the amount the machine stopped at. */
  lemma {:induction false} StopChange(requests: seq<int>, inv: seq<int>, before: seq<int>)
    requires |inv| == Slots && Run(requests, inv).Stopped?
    ensures var s := Run(requests, inv);
      s.at < |requests| && LastChange(requests, inv, before) == Dispensed(requests[s.at], Run(requests[..s.at], inv).stock)
    decreases |requests|
  {
    var r := requests[..|requests| - 1];
    if Run(r, inv).Stopped? {
      StopChange(r, inv, before);
      assert requests[..Run(r, inv).at] == r[..Run(r, inv).at];
    } else {
      assert requests[..|requests| - 1] == r;
    }
  }

  /**
   * The machine stops at the first request it cannot serve in full: every
   * earlier prefix left it serving, the request at the stop is a real amount,
   * and the amount owed and the stock are those of serving it.
   */
  lemma {:induction false} StopIsFirstShortfall(requests: seq<int>, inv: seq<int>)
    requires |inv| == Slots && Run(requests, inv).Stopped?
    ensures var s := Run(requests, inv);
      && s.at < |requests| && requests[s.at] != -1
      && (forall j :: 0 <= j <= s.at ==> Run(requests[..j], inv).Serving?)
      && s.owed == Leftover(requests[s.at], Run(requests[..s.at], inv).stock) > 0
      && s.stock == Remaining(requests[s.at], Run(requests[..s.at], inv).stock)
    decreases |requests|
  {
    var r := requests[..|requests| - 1];
    var at := Run(requests, inv).at;
    if Run(r, inv).Stopped? {
      StopIsFirstShortfall(r, inv);
      assert requests[..at] == r[..at];
      forall j | 0 <= j <= at ensures Run(requests[..j], inv).Serving? {
        assert requests[..j] == r[..j];
      }
    } else {
      forall j | 0 <= j <= at ensures Run(requests[..j], inv).Serving? {
        if Run(requests[..j], inv).Stopped? {
          assert requests[..j] + r[j..] == r;
          StoppedIsFinal(requests[..j], r[j..], inv);
        }
      }
    }
  }

  /** Amounts the prompt can produce: -1 for a negative entry, otherwise a non-negative number of cents. */
  predicate FromPrompt(requests: seq<int>)
  {
    forall i :: 0 <= i < |requests| ==> requests[i] == -1 || requests[i] >= 0
  }

  /** The total of the amounts asked for, skipping the -1 markers. */
  function Requested(requests: seq<int>): int
  {
    if requests == [] then 0
    else
      var last := requests[|requests| - 1];
      Requested(requests[..|requests| - 1]) + (if last == -1 then 0 else last)
  }

  /**
   * While the machine is serving, every amount was paid in full: the stock
   * stays non-negative and its worth has dropped by exactly the total asked for.
   */
  lemma {:induction false} ServingPaysInFull(requests: seq<int>, inv: seq<int>)
    requires |inv| == Slots && FromPrompt(requests)
    requires forall i :: 0 <= i < Slots ==> inv[i] >= 0
    requires Run(requests, inv).Serving?
    ensures forall i :: 0 <= i < Slots ==> Run(requests, inv).stock[i] >= 0
    ensures Value(inv) - Value(Run(requests, inv).stock) == Requested(requests)
    decreases |requests|
  {
    if requests != [] {
      var r := requests[..|requests| - 1];
      assert FromPrompt(r) by {
        forall i | 0 <= i < |r| ensures r[i] == -1 || r[i] >= 0 {
          assert r[i] == requests[i];
        }
      }
      ServingPaysInFull(r, inv);
      var c := requests[|requests| - 1];
      if c != -1 {
        var st := Run(r, inv).stock;
        NonNegative(c, st);
        Conservation(c, st);
        StockConservation(c, st);
      }
    }
  }
}
