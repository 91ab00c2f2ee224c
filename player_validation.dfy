/** Id parsing, field validation and level derivation of the player service:
    the pure checks and formulas that `PlayerServiceImpl` applies before it
    touches the repository. */
module PlayerValidation {
  import opened Entity
  import opened JavaLib

  // ---------------------------------------------------------------------
  // Id parsing

  /** `examinationValidId`: the id in a request path must spell a Java `long`
      greater than zero; anything else is InvalidData. */
  function ExaminationValidId(id: string): (r: Result<int>)
    ensures r.Ok? <==> ParseLong(id).Some? && ParseLong(id).value > 0
    ensures r.Ok? ==> r.value == ParseLong(id).value && 1 <= r.value <= MaxLong
    ensures r.Err? ==> r.error == InvalidData
  {
    match ParseLong(id)
    case None => Err(InvalidData)
    case Some(v) => if v <= 0 then Err(InvalidData) else Ok(v)
  }

  /** Every id the store can hand out is accepted in its decimal spelling. */
  lemma ValidIdRoundTrip(n: int)
    requires 1 <= n <= MaxLong
    ensures ExaminationValidId(DecimalString(n)) == Ok(n)
  {
    ParseLongDecimal(n);
  }

  /** A string that starts with a minus sign is never a valid id. */
  lemma NegativeIdRejected(id: string)
    requires |id| >= 1 && id[0] == '-'
    ensures ExaminationValidId(id) == Err(InvalidData)
  {
  }

  lemma IdExamples()
    ensures ExaminationValidId("abc") == Err(InvalidData)
    ensures ExaminationValidId("0") == Err(InvalidData)
    ensures ExaminationValidId("-5") == Err(InvalidData)
    ensures ExaminationValidId("7") == Ok(7)
  {
    assert !IsDigit("abc"[0]);
    assert DigitsValue("0") == 0;
    assert "-5"[1..] == "5" && DigitsValue("5") == 5;
    assert DigitsValue("7") == 7;
  }

  // ---------------------------------------------------------------------
  // Field validation

  const MaxNameLength := 12
  const MaxTitleLength := 30
  const MaxExperience := 10_000_000
  const MinBirthYear := 2000
  const MaxBirthYear := 3000

  /** The first millisecond of 2000-01-01 and of 3001-01-01, UTC. */
  const FirstValidBirthday := 946_684_800_000
  const EndValidBirthday := 32_535_216_000_000

  predicate BadName(name: Option<string>) {
    name.Some? && (|name.value| > MaxNameLength || |name.value| == 0)
  }

  predicate BadTitle(title: Option<string>) {
    title.Some? && |title.value| > MaxTitleLength
  }

  predicate BadExperience(exp: Option<int>) {
    exp.Some? && (exp.value > MaxExperience || exp.value < 0)
  }

  /** The birthday test of `invalidValues`: an instant before 1970 is
      refused outright, any later one by the calendar year of its date. So
      the accepted instants are those from 2000-01-01 up to, not including,
      3001-01-01 UTC. */
  predicate BadBirthday(birthday: Option<int>): (b: bool)
    ensures b <==> birthday.Some? && !(FirstValidBirthday <= birthday.value < EndValidBirthday)
  {
    if birthday.None? then false
    else if birthday.value < 0 then true
    else
      BirthdayWindow(birthday.value);
      YearOfUtc(birthday.value) < MinBirthYear || YearOfUtc(birthday.value) > MaxBirthYear
  }

  /** `invalidValues`: some present field breaks its bound, which in the
      units of the record is a name of length 0 or over 12, a title over 30,
      an experience outside [0, 10000000], or a birthday outside
      [946684800000, 32535216000000) milliseconds; absent fields are not
      looked at. */
  predicate InvalidValues(p: Player): (b: bool)
    ensures b <==>
      (p.name.Some? && (|p.name.value| == 0 || |p.name.value| > MaxNameLength)) ||
      (p.title.Some? && |p.title.value| > MaxTitleLength) ||
      (p.experience.Some? && (p.experience.value < 0 || p.experience.value > MaxExperience)) ||
      (p.birthday.Some? && !(FirstValidBirthday <= p.birthday.value < EndValidBirthday))
  {
    BadName(p.name) || BadTitle(p.title) || BadExperience(p.experience) || BadBirthday(p.birthday)
  }

  /** The fields a new player must carry: every field but the id and the two
      derived ones, which the service sets itself, and `banned`. */
  const RequiredFields := {NameField, TitleField, ExperienceField, RaceField, ProfessionField, BirthdayField}

  /** `containsNullField`: one of the required fields is null. */
  predicate ContainsNullField(p: Player): (b: bool)
    ensures !b <==> forall f :: f in RequiredFields ==> IsSet(p, f)
  {
    p.name.None? || p.title.None? || p.experience.None? ||
    p.race.None? || p.profession.None? || p.birthday.None?
  }

  lemma BirthdayWindow(ms: int)
    requires ms >= 0
    ensures MinBirthYear <= YearOfUtc(ms) <= MaxBirthYear <==> FirstValidBirthday <= ms < EndValidBirthday
  {
    YearInRange(ms, MinBirthYear, MaxBirthYear);
    assert LeapYearsBefore(1970) == 477;
    assert LeapYearsBefore(2000) == 484;
    assert LeapYearsBefore(3001) == 727;
    assert YearStart(MinBirthYear) == 10957 * MillisPerDay == FirstValidBirthday;
    assert YearStart(MaxBirthYear + 1) == 376565 * MillisPerDay == EndValidBirthday;
  }

  // ---------------------------------------------------------------------
  // Level derivation

  /** The experience at which level `l` is reached. */
  function Threshold(l: int): int {
    50 * l * (l + 1)
  }

  lemma {:induction false} ThresholdMonotone(a: int, b: int)
    requires 0 <= a <= b
    ensures Threshold(a) <= Threshold(b)
  {
    assert a * (a + 1) <= b * (a + 1) <= b * (b + 1);
  }

  /** Thresholds order levels: a lower threshold belongs to a lower level. */
  lemma ThresholdOrder(a: int, b: int)
    requires 0 <= a && 0 <= b && Threshold(a) < Threshold(b)
    ensures a < b
  {
    if b <= a { ThresholdMonotone(b, a); }
  }

  lemma SquareMonotone(a: int, b: int)
    requires 0 <= a <= b
    ensures a * a <= b * b
  {
    assert a * a <= a * b <= b * b;
  }

  lemma LowerSquare(l: int)
    ensures (100 * l + 50) * (100 * l + 50) == 200 * Threshold(l) + 2500
  {
  }

  lemma UpperSquare(l: int)
    ensures (100 * l + 150) * (100 * l + 150) == 200 * Threshold(l + 1) + 2500
  {
  }

  /** The floor root of `2500 + 200 * exp`, less 50 and divided by 100, lies
      between the thresholds around `exp`. */
  lemma {:induction false} RootBracket(exp: int, s: int)
    requires 0 <= exp && 0 <= s
    requires s * s <= 2500 + 200 * exp < (s + 1) * (s + 1)
    ensures s >= 50
    ensures Threshold((s - 50) / 100) <= exp < Threshold((s - 50) / 100 + 1)
  {
    if s < 50 { SquareMonotone(s + 1, 50); }
    var l := (s - 50) / 100;
    assert 100 * l + 50 <= s < 100 * l + 150;
    assert 0 <= l;
    SquareMonotone(100 * l + 50, s);
    LowerSquare(l);
    SquareMonotone(s + 1, 100 * l + 150);
    UpperSquare(l);
  }

  /** `calculateLvl`: `(int)(Math.sqrt(2500 + 200 * exp) - 50) / 100`. The
      square root is at least 50, so the cast is a floor; the level is the
      largest `l` whose threshold the experience reaches. */
  function CalculateLvl(exp: int): (lvl: nat)
    requires 0 <= exp <= MaxExperience
    ensures Threshold(lvl) <= exp < Threshold(lvl + 1)
  {
    var s := FloorSqrt(2500 + 200 * exp);
    RootBracket(exp, s);
    (s - 50) / 100
  }

  /** `calculateUntilNextLevel`: the experience still missing for the next
      level. For validated experience and its level this is never zero or
      negative, and never more than the width of the level. */
  function CalculateUntilNextLevel(lvl: int, exp: int): (r: int)
    ensures r == Threshold(lvl + 1) - exp
    ensures 0 <= exp <= MaxExperience && lvl == CalculateLvl(exp) ==> 1 <= r <= 100 * (lvl + 1)
  {
    ThresholdStep(lvl);
    50 * (lvl + 1) * (lvl + 2) - exp
  }

  /** A level bracket pins the level down: only one `l` has it. */
  lemma LevelUnique(exp: int, l: int)
    requires 0 <= exp <= MaxExperience && 0 <= l
    requires Threshold(l) <= exp < Threshold(l + 1)
    ensures l == CalculateLvl(exp)
  {
    var k := CalculateLvl(exp);
    if l < k { ThresholdMonotone(l + 1, k); }
    if k < l { ThresholdMonotone(k + 1, l); }
  }

  lemma LevelOfZero()
    ensures CalculateLvl(0) == 0
  {
    var k := CalculateLvl(0);
    if k > 0 { ThresholdMonotone(1, k); }
  }

  /** More experience never means a lower level. */
  lemma LevelMonotone(e1: int, e2: int)
    requires 0 <= e1 <= e2 <= MaxExperience
    ensures CalculateLvl(e1) <= CalculateLvl(e2)
  {
    ThresholdOrder(CalculateLvl(e1), CalculateLvl(e2) + 1);
  }

  /** The highest level is 446, reached at the maximal experience. */
  lemma LevelAtMost446(exp: int)
    requires 0 <= exp <= MaxExperience
    ensures CalculateLvl(exp) <= 446
    ensures CalculateLvl(MaxExperience) == 446
  {
    var l := CalculateLvl(exp);
    if l > 446 { ThresholdMonotone(447, l); }
    LevelUnique(MaxExperience, 446);
  }

  lemma ThresholdStep(l: int)
    ensures Threshold(l + 1) - Threshold(l) == 100 * (l + 1)
  {
  }

  /** The derived fields of `p` agree with its experience: the level is the
      one whose bracket holds the experience, and `untilNextLevel` is the
      distance to the next threshold. */
  predicate LevelsConsistent(p: Player) {
    && p.experience.Some? && p.level.Some? && p.untilNextLevel.Some?
    && 0 <= p.level.value
    && Threshold(p.level.value) <= p.experience.value < Threshold(p.level.value + 1)
    && p.untilNextLevel.value == Threshold(p.level.value + 1) - p.experience.value
  }

  /** `lvlCalculation`: sets the level and the experience until the next
      level from the player's experience, and nothing else. */
  function LvlCalculation(p: Player): (r: Player)
    requires p.experience.Some? && 0 <= p.experience.value <= MaxExperience
    ensures LevelsConsistent(r)
    ensures r.(level := p.level, untilNextLevel := p.untilNextLevel) == p
  {
    var exp := p.experience.value;
    var lvl := CalculateLvl(exp);
    p.(level := Some(lvl), untilNextLevel := Some(CalculateUntilNextLevel(lvl, exp)))
  }

  /** The consistent derived fields are exactly the computed ones. */
  lemma ConsistentIsComputed(p: Player)
    requires LevelsConsistent(p) && p.experience.value <= MaxExperience
    ensures p.level == Some(CalculateLvl(p.experience.value))
    ensures p.untilNextLevel == Some(CalculateUntilNextLevel(p.level.value, p.experience.value))
  {
    LevelUnique(p.experience.value, p.level.value);
  }
}
