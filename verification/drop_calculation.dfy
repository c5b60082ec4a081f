/** The package-drop calculator: when an aircraft flying level at constant
    speed should release a package so that it lands on a ground target
    (`hitung_jarak_penjatuhan`), and the input checks and drop point that
    the interactive `main` adds. Numbers are exact reals; the square root
    is any function that returns the exact non-negative root. */
module DropCalculation {
  import opened Wrappers

  /** Gravitational acceleration (m/s²) used when none is given. */
  const DefaultGravity: real := 9.8

  /** `sqrt` returns the non-negative square root of every non-negative real. */
  ghost predicate IsSqrt(sqrt: real -> real) {
    forall x: real :: 0.0 <= x ==> 0.0 <= sqrt(x) && sqrt(x) * sqrt(x) == x
  }

  /** The advice given to the pilot. */
  datatype Status = TooLate | DropNow | KeepFlying

  /** The text the calculator reports for each status. */
  function Message(s: Status): string {
    match s
    case TooLate => "TERLAMBAT! Pesawat sudah melewati titik drop"
    case DropNow => "JATUHKAN SEKARANG!"
    case KeepFlying => "Belum waktunya, terus terbang"
  }

  /** The three reports are told apart by their text alone, so reporting
      the status as a value loses nothing against reporting the string. */
  lemma MessageInjective(a: Status, b: Status)
    requires Message(a) == Message(b)
    ensures a == b
  {
  }

  /** Classifies the remaining distance to the drop point, for an aircraft
      covering `speed` metres per second: at or past the point, within one
      second of it, or further away. Exactly one status applies. */
  function Classify(dropDistance: real, speed: real): (s: Status)
    ensures s == TooLate <==> dropDistance <= 0.0
    ensures s == DropNow <==> 0.0 < dropDistance < speed
    ensures s == KeepFlying <==> 0.0 < dropDistance && speed <= dropDistance
  {
    if dropDistance <= 0.0 then TooLate
    else if dropDistance < speed then DropNow
    else KeepFlying
  }

  /** What the calculation returns: distance still to fly before release,
      fall time of the package, horizontal distance the package covers
      while falling, and the advice. */
  datatype DropPlan = DropPlan(dropDistance: real, fallTime: real, packageTravel: real, status: Status)

  /** The errors the arithmetic can raise: division by a zero gravity, or a
      square root of a negative number (a negative `2h/g`). */
  datatype MathError = ZeroDivision | DomainError

  /** The drop calculation for an aircraft at `planeX` moving at `speed`
      towards larger positions, `height` above the ground, with the target
      at `targetX` and gravity `g`. The fall time solves ½·g·t² = h, the
      package travels speed·t while falling, and the drop distance is what
      remains between the aircraft and the release point. */
  function ComputeDrop(speed: real, height: real, planeX: real, targetX: real,
                       g: real, sqrt: real -> real): (r: Result<DropPlan, MathError>)
    requires IsSqrt(sqrt)
    ensures r == Failure(ZeroDivision) <==> g == 0.0
    ensures r == Failure(DomainError) <==> (0.0 < g && height < 0.0) || (g < 0.0 && 0.0 < height)
    ensures r.Success? ==>
              && 0.0 <= r.value.fallTime
              && g * r.value.fallTime * r.value.fallTime == 2.0 * height
              && r.value.packageTravel == speed * r.value.fallTime
              && r.value.dropDistance == (targetX - planeX) - speed * r.value.fallTime
              && planeX + r.value.dropDistance + r.value.packageTravel == targetX
              && r.value.status == Classify(r.value.dropDistance, speed)
  {
    if g == 0.0 then Failure(ZeroDivision)
    else
      var q := 2.0 * height / g;
      assert q < 0.0 <==> (0.0 < g && height < 0.0) || (g < 0.0 && 0.0 < height) by {
        assert q * g == 2.0 * height;
      }
      if q < 0.0 then Failure(DomainError)
      else
        var fallTime := sqrt(q);
        assert g * fallTime * fallTime == 2.0 * height by {
          assert fallTime * fallTime == q;
          assert g * q == 2.0 * height;
        }
        var packageTravel := speed * fallTime;
        var toTarget := targetX - planeX;
        var dropDistance := toTarget - packageTravel;
        Success(DropPlan(dropDistance, fallTime, packageTravel, Classify(dropDistance, speed)))
  }

  /** The fall time really is how long a package takes to fall `height`
      metres from rest: ½·g·t² = h, with t the non-negative root. */
  lemma FallTimeSolvesFreeFall(speed: real, height: real, planeX: real, targetX: real,
                               g: real, sqrt: real -> real)
    requires IsSqrt(sqrt)
    requires 0.0 < g && 0.0 <= height
    ensures var r := ComputeDrop(speed, height, planeX, targetX, g, sqrt);
            && r.Success?
            && 0.0 <= r.value.fallTime
            && g / 2.0 * r.value.fallTime * r.value.fallTime == height
  {
  }

  /** How far along the approach a status lies. */
  function Stage(s: Status): nat {
    match s
    case KeepFlying => 0
    case DropNow => 1
    case TooLate => 2
  }

  /** Moving the aircraft forward never moves the advice backwards: as the
      position grows, "keep flying" may become "drop now" and then "too
      late", never the other way round. */
  lemma AdviceProgressesAsPlaneAdvances(speed: real, height: real, earlierX: real, laterX: real,
                                        targetX: real, g: real, sqrt: real -> real)
    requires IsSqrt(sqrt)
    requires earlierX <= laterX
    ensures var r1 := ComputeDrop(speed, height, earlierX, targetX, g, sqrt);
            var r2 := ComputeDrop(speed, height, laterX, targetX, g, sqrt);
            && (r1.Success? <==> r2.Success?)
            && (r1.Success? ==> r1.value.dropDistance - r2.value.dropDistance == laterX - earlierX)
            && (r1.Success? ==> Stage(r1.value.status) <= Stage(r2.value.status))
  {
  }

  /** With non-negative speed and height under ordinary gravity, a target
      level with or behind the aircraft is always reported too late. */
  lemma TargetBehindIsTooLate(speed: real, height: real, planeX: real, targetX: real,
                              sqrt: real -> real)
    requires IsSqrt(sqrt)
    requires 0.0 <= speed && 0.0 <= height && targetX <= planeX
    ensures var r := ComputeDrop(speed, height, planeX, targetX, DefaultGravity, sqrt);
            r.Success? && r.value.status == TooLate
  {
    var r := ComputeDrop(speed, height, planeX, targetX, DefaultGravity, sqrt);
    assert 0.0 <= speed * r.value.fallTime;
  }

  /** Squaring is strictly increasing on the non-negative reals. */
  lemma SquareIncreasing(a: real, b: real)
    requires 0.0 <= a < b
    ensures a * a < b * b
  {
    var aa, ab, bb := a * a, a * b, b * b;
    assert aa <= ab by { assert 0.0 <= a * (b - a) == ab - aa; }
    assert ab < bb by { assert 0.0 < b * (b - a) == bb - ab; }
  }

  /** A non-negative root of `x` lies in [lo, hi) when lo² ≤ x < hi². */
  lemma RootBetween(t: real, x: real, lo: real, hi: real)
    requires 0.0 <= lo && 0.0 < hi && 0.0 <= t && t * t == x
    requires lo * lo <= x < hi * hi
    ensures lo <= t < hi
  {
    if t < lo {
      SquareIncreasing(t, lo);
      assert false;
    }
    if hi <= t {
      if hi < t {
        SquareIncreasing(hi, t);
      }
      assert false;
    }
  }

  /** First worked example: 50 m/s at 500 m, aircraft at 0 m, target at
      600 m. The package falls for about 10.1 s and travels about 505 m, so
      about 95 m remain: keep flying. */
  lemma ExampleOneKeepFlying(sqrt: real -> real)
    requires IsSqrt(sqrt)
    ensures var r := ComputeDrop(50.0, 500.0, 0.0, 600.0, DefaultGravity, sqrt);
            r.Success? && 90.0 < r.value.dropDistance <= 100.0 && r.value.status == KeepFlying
  {
    var q := 2.0 * 500.0 / DefaultGravity;
    RootBetween(sqrt(q), q, 10.0, 10.2);
  }

  /** Second worked example: 100 m/s at 1000 m, aircraft at 500 m, target at
      2000 m. The package travels about 1429 m, so about 71 m remain, less
      than one second of flight: drop now. */
  lemma ExampleTwoDropNow(sqrt: real -> real)
    requires IsSqrt(sqrt)
    ensures var r := ComputeDrop(100.0, 1000.0, 500.0, 2000.0, DefaultGravity, sqrt);
            r.Success? && 50.0 < r.value.dropDistance <= 80.0 && r.value.status == DropNow
  {
    var q := 2.0 * 1000.0 / DefaultGravity;
    RootBetween(sqrt(q), q, 14.2, 14.5);
  }

  /** Third worked example: 80 m/s at 200 m, aircraft at 1000 m, target
      behind it at 800 m: too late. */
  lemma ExampleThreeTooLate(sqrt: real -> real)
    requires IsSqrt(sqrt)
    ensures var r := ComputeDrop(80.0, 200.0, 1000.0, 800.0, DefaultGravity, sqrt);
            r.Success? && r.value.status == TooLate
  {
  }

  /** Why `main` refuses the inputs it reads. */
  datatype InputError = NonPositiveSpeedOrHeight

  /** The instructions `main` derives: the plan, the position at which the
      package should be released, and, while that position is still ahead,
      the time left until the aircraft reaches it. */
  datatype Instruction = Instruction(plan: DropPlan, dropPoint: real, timeToDrop: Option<real>)

  /** `main` after reading its four numbers: reject a non-positive speed or
      height before computing anything, otherwise run the calculation under
      default gravity and derive the release position. */
  function PlanDrop(speed: real, height: real, planeX: real, targetX: real,
                    sqrt: real -> real): (r: Result<Instruction, InputError>)
    requires IsSqrt(sqrt)
    ensures r.Failure? <==> speed <= 0.0 || height <= 0.0
    ensures r.Success? ==>
              && ComputeDrop(speed, height, planeX, targetX, DefaultGravity, sqrt) == Success(r.value.plan)
              && r.value.dropPoint == targetX - speed * r.value.plan.fallTime
              && (r.value.timeToDrop.Some? <==> 0.0 < r.value.plan.dropDistance)
              && (r.value.timeToDrop.Some? ==>
                    && 0.0 < r.value.timeToDrop.value
                    && r.value.timeToDrop.value * speed == r.value.plan.dropDistance
                    && (r.value.timeToDrop.value < 1.0 <==> r.value.plan.status == DropNow))
  {
    if speed <= 0.0 || height <= 0.0 then Failure(NonPositiveSpeedOrHeight)
    else
      var plan := ComputeDrop(speed, height, planeX, targetX, DefaultGravity, sqrt).value;
      if 0.0 < plan.dropDistance then
        var wait := plan.dropDistance / speed;
        assert wait * speed == plan.dropDistance;
        assert wait < 1.0 <==> plan.dropDistance < speed;
        Success(Instruction(plan, planeX + plan.dropDistance, Some(wait)))
      else
        Success(Instruction(plan, targetX - plan.packageTravel, None))
  }
}
