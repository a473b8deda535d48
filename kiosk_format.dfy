/**
 * The pure expressions of the kiosk page (public/main.js): the status badge's
 * class, the progress percentage and label, and the `mm:ss` elapsed clock.
 *
 * JavaScript numbers are modelled as integers; a field that may be missing
 * (`undefined`/`null`) is an `Option<int>`.
 */
module KioskFormat {
  import opened Wrappers
  import opened Text

  /** JavaScript truthiness of a possibly missing number: present and non-zero. */
  predicate Truthy(v: Option<int>) {
    v.Some? && v.value != 0
  }

  /** `a || b` on possibly missing numbers. */
  function Or(a: Option<int>, b: Option<int>): Option<int> {
    if Truthy(a) then a else b
  }

  /** `setStatus`'s choice of badge class for a state name. */
  function StatusClass(state: string): string {
    if state == "Running" then "running" else if state == "Error" then "error" else "idle"
  }

  /** The class is one of three: `running` exactly for "Running", `error`
      exactly for "Error", and `idle` for every other state name. */
  lemma StatusClassCases(state: string)
    ensures StatusClass(state) == "running" <==> state == "Running"
    ensures StatusClass(state) == "error" <==> state == "Error"
    ensures StatusClass(state) == "idle" <==> state != "Running" && state != "Error"
  {
    assert "running" != "error" && "running" != "idle" && "error" != "idle" by {
      assert "running"[0] != "error"[0] && "running"[0] != "idle"[0] && "error"[0] != "idle"[0];
    }
  }

  /** The badge's full `className`. */
  function BadgeClass(state: string): string {
    "status " + StatusClass(state)
  }

  // ---------------------------------------------------------------------
  // The progress percentage

  /** `totalLines ? Math.round((sentLines / totalLines) * 100) : 0`, computed
      exactly: round half up is floor(100 sent / total + 1/2), that is
      floor((200 sent + total) / (2 total)). */
  function Pct(sent: int, total: int): int {
    if total == 0 then 0
    else if total > 0 then (200 * sent + total) / (2 * total)
    else (-(200 * sent + total)) / (-2 * total)
  }

  /** `p` is `100 sent / total` rounded half up: p - 1/2 <= 100 sent / total < p + 1/2. */
  predicate RoundsTo(sent: int, total: int, p: int)
    requires total != 0
  {
    if total > 0 then (2 * p - 1) * total <= 200 * sent < (2 * p + 1) * total
    else (2 * p + 1) * total < 200 * sent <= (2 * p - 1) * total
  }

  lemma MulLeft(a: int, b: int, t: int)
    requires a <= b && t > 0
    ensures a * t <= b * t
  {
    assert b * t - a * t == (b - a) * t;
  }

  /** `Pct` is the rounding `Math.round` performs. */
  lemma PctRounds(sent: int, total: int)
    requires total != 0
    ensures RoundsTo(sent, total, Pct(sent, total))
  {
    var p := Pct(sent, total);
    if total > 0 {
      var n := 200 * sent + total;
      var r := n % (2 * total);
      assert n == 2 * total * p + r && 0 <= r < 2 * total;
      assert (2 * p - 1) * total == 2 * total * p - total;
      assert (2 * p + 1) * total == 2 * total * p + total;
    } else {
      var n := -(200 * sent + total);
      var r := n % (-2 * total);
      assert n == -2 * total * p + r && 0 <= r < -2 * total;
      assert (2 * p - 1) * total == 2 * total * p - total;
      assert (2 * p + 1) * total == 2 * total * p + total;
    }
  }

  /** Only one integer rounds that way, so `RoundsTo` pins the percentage down. */
  lemma RoundsToUnique(sent: int, total: int, p: int, q: int)
    requires total != 0 && RoundsTo(sent, total, p) && RoundsTo(sent, total, q)
    ensures p == q
  {
    if p < q {
      RoundsToExcludesAbove(sent, total, p, q);
    } else if q < p {
      RoundsToExcludesAbove(sent, total, q, p);
    }
  }

  lemma RoundsToExcludesAbove(sent: int, total: int, p: int, q: int)
    requires total != 0 && RoundsTo(sent, total, p) && p < q
    ensures !RoundsTo(sent, total, q)
  {
    if total > 0 {
      MulLeft(2 * p + 1, 2 * q - 1, total);
    } else {
      MulLeft(2 * p + 1, 2 * q - 1, -total);
      assert (2 * p + 1) * -total == -((2 * p + 1) * total);
      assert (2 * q - 1) * -total == -((2 * q - 1) * total);
    }
  }

  /** With `0 <= sent <= total` the percentage lies in 0..100; no job reads 0,
      none sent reads 0, and all sent reads 100. */
  lemma PctBounds(sent: int, total: int)
    requires 0 <= sent <= total
    ensures 0 <= Pct(sent, total) <= 100
    ensures total == 0 ==> Pct(sent, total) == 0
    ensures sent == 0 ==> Pct(sent, total) == 0
    ensures 0 < total && sent == total ==> Pct(sent, total) == 100
  {
    if total > 0 {
      var p := Pct(sent, total);
      PctRounds(sent, total);
      if p < 0 {
        MulLeft(2 * p + 1, -1, total);
      }
      if p > 100 {
        MulLeft(201, 2 * p - 1, total);
      }
      if sent == 0 {
        assert RoundsTo(sent, total, 0);
        RoundsToUnique(sent, total, p, 0);
      }
      if sent == total {
        assert RoundsTo(sent, total, 100);
        RoundsToUnique(sent, total, p, 100);
      }
    }
  }

  /** `progressFill.style.width`. */
  function ProgressWidth(sent: int, total: int): string {
    IntToString(Pct(sent, total)) + "%"
  }

  /** `progressText.textContent`: `${pct}% • ${sent} / ${total}` (its first
      part, `${pct}%`, is the width string). */
  function ProgressText(sent: int, total: int): string {
    ProgressWidth(sent, total) + Counts(sent, total)
  }

  /** The label after the percentage: ` • ${sent} / ${total}`. */
  function Counts(sent: int, total: int): string {
    " \U{2022} " + IntToString(sent) + " / " + IntToString(total)
  }

  /** The bar and the label show the same percentage: the width string starts
      the label, and for a non-negative percentage its digits read back as it. */
  lemma ProgressLabelAgrees(sent: int, total: int)
    ensures var w := ProgressWidth(sent, total);
            |w| <= |ProgressText(sent, total)| && ProgressText(sent, total)[..|w|] == w
    ensures Pct(sent, total) >= 0 ==>
              var w := ProgressWidth(sent, total);
              AllDigits(w[..|w| - 1]) && ParseNat(w[..|w| - 1]) == Pct(sent, total)
  {
    var p := IntToString(Pct(sent, total));
    var w := ProgressWidth(sent, total);
    assert (w + Counts(sent, total))[..|w|] == w;
    if Pct(sent, total) >= 0 {
      assert w[..|w| - 1] == p;
      ParseNatToString(Pct(sent, total));
    }
  }

  // ---------------------------------------------------------------------
  // The elapsed clock

  /** JavaScript's `a % b` for `b > 0`: the remainder takes the dividend's sign. */
  function JsRem(a: int, b: int): int
    requires b > 0
  {
    if a >= 0 then a % b else -((-a) % b)
  }

  /** `String(n).padStart(2, '0')`. */
  function Pad2(n: int): string {
    PadStart(IntToString(n), 2, '0')
  }

  /** The interval body's text for `s` whole seconds:
      `${String(Math.floor(s/60)).padStart(2,'0')}:${String(s%60).padStart(2,'0')}`. */
  function Clock(s: int): string {
    Pad2(s / 60) + ":" + Pad2(JsRem(s, 60))
  }

  /** The whole interval body: `"00:00"` without a (truthy) start time, else the
      clock of `Math.floor((now - startTs) / 1000)` seconds. */
  function Elapsed(startTs: Option<int>, now: int): string {
    if !Truthy(startTs) then "00:00" else Clock((now - startTs.value) / 1000)
  }

  /** A padded non-negative number is at least two digits and reads back as itself. */
  lemma Pad2Reads(n: nat)
    ensures var t := Pad2(n); |t| >= 2 && AllDigits(t) && ParseNat(t) == n
    ensures n < 100 ==> |Pad2(n)| == 2
  {
    var d := NatToString(n);
    assert IntToString(n) == d;
    var t := Pad2(n);
    var z := t[..|t| - |d|];
    assert t == z + d;
    ParseNatLeadingZeros(z, d);
    ParseNatToString(n);
    if 10 <= n < 100 {
      assert d == NatToString(n / 10) + [DigitChar(n % 10)];
    }
  }

  /** `c` reads `mm:ss` with at least two minute digits, two seconds digits
      below 60, and `60 * mm + ss == s`. */
  predicate ReadsAsClock(c: string, s: int) {
    |c| >= 5 && c[|c| - 3] == ':' &&
    AllDigits(c[..|c| - 3]) && AllDigits(c[|c| - 2..]) &&
    ParseNat(c[|c| - 2..]) < 60 &&
    60 * ParseNat(c[..|c| - 3]) + ParseNat(c[|c| - 2..]) == s
  }

  lemma JoinClock(mm: string, ss: string, s: int)
    requires |mm| >= 2 && |ss| == 2 && AllDigits(mm) && AllDigits(ss)
    requires ParseNat(ss) < 60 && 60 * ParseNat(mm) + ParseNat(ss) == s
    ensures ReadsAsClock(mm + ":" + ss, s)
  {
    var c := mm + ":" + ss;
    var m, t := c[..|c| - 3], c[|c| - 2..];
    assert m == mm;
    assert t == ss;
    assert ParseNat(m) == ParseNat(mm) && ParseNat(t) == ParseNat(ss);
  }

  /** For `s >= 0` the clock reads `mm:ss` with two-digit seconds below 60, at
      least two minute digits, and `60 * mm + ss == s`. */
  lemma ClockFields(s: nat)
    ensures ReadsAsClock(Clock(s), s)
  {
    Pad2Reads(s / 60);
    Pad2Reads(s % 60);
    JoinClock(Pad2(s / 60), Pad2(s % 60), s);
  }

  /** While a job runs (a truthy start time that is not in the future) the
      elapsed display reads as the whole minutes and seconds since it. */
  lemma ElapsedReadsAsClock(startTs: Option<int>, now: int)
    requires Truthy(startTs) && now >= startTs.value
    ensures ReadsAsClock(Elapsed(startTs, now), (now - startTs.value) / 1000)
  {
    var secs: nat := (now - startTs.value) / 1000;
    assert Elapsed(startTs, now) == Clock(secs);
    ClockFields(secs);
  }

  /** The display reads "00:00" with no start time and during the first second
      after one, so starting a job does not make it jump. */
  lemma ElapsedStartsAtZero(startTs: Option<int>, now: int)
    requires !Truthy(startTs) || startTs.value <= now < startTs.value + 1000
    ensures Elapsed(startTs, now) == "00:00"
  {
    if Truthy(startTs) {
      assert (now - startTs.value) / 1000 == 0;
      assert Pad2(0) == "00" by {
        assert IntToString(0) == "0";
      }
    }
  }
}
