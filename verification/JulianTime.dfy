// The f64 Julian dates of src/alert/base.rs, with the three ways the code compares them:
// IEEE `==` and `<`, the total order of `f64::total_cmp`, and the BSON order MongoDB sorts by.
module JulianTime {
  /** A double.  `Finite(0.0)` is +0.0; -0.0 has a case of its own because only
      `total_cmp` tells the two apart. */
  datatype Time =
    | NotANumber(negative: bool, payload: nat)
    | Infinite(negative: bool)
    | NegativeZero
    | Finite(value: real)

  predicate IsFinite(t: Time) {
    t.Finite? || t.NegativeZero?
  }

  function Value(t: Time): real
    requires IsFinite(t)
  {
    if t.NegativeZero? then 0.0 else t.value
  }

  /** IEEE `==`: NaN differs from everything, the two zeros are equal. */
  predicate Same(a: Time, b: Time) {
    if IsFinite(a) && IsFinite(b) then Value(a) == Value(b)
    else a.Infinite? && a == b
  }

  /** IEEE `<`: false as soon as a NaN is involved. */
  predicate Less(a: Time, b: Time) {
    if a.NotANumber? || b.NotANumber? then false
    else if IsFinite(a) && IsFinite(b) then Value(a) < Value(b)
    else if a.Infinite? then a.negative && b != a
    else !b.negative
  }

  // Both sort orders are lexicographic in a rank.
  datatype Rank = Rank(kind: int, value: real, tie: int)

  predicate RankLe(a: Rank, b: Rank) {
    a.kind < b.kind ||
    (a.kind == b.kind && (a.value < b.value || (a.value == b.value && a.tie <= b.tie)))
  }

  datatype Order = TotalCmp | Bson

  function RankOf(o: Order, t: Time): Rank {
    match t
    case NotANumber(neg, payload) =>
      if o == Bson || neg then Rank(-2, if o == Bson then 0.0 else -(payload as real), 0)
      else Rank(2, payload as real, 0)
    case Infinite(neg) => Rank(if neg then -1 else 1, 0.0, 0)
    case NegativeZero => Rank(0, 0.0, if o == Bson then 1 else 0)
    case Finite(v) => Rank(0, v, 1)
  }

  /** `a` sorts no later than `b`. */
  predicate Le(o: Order, a: Time, b: Time) {
    RankLe(RankOf(o, a), RankOf(o, b))
  }

  /** BSON equality, used by `$in`: all NaNs are equal and so are the zeros. */
  predicate BsonEqual(a: Time, b: Time) {
    RankOf(Bson, a) == RankOf(Bson, b)
  }

  /** `to_bits_normalized`: one representative for both zeros and one for all NaNs. */
  function Normalized(t: Time): Time {
    match t
    case NegativeZero => Finite(0.0)
    case NotANumber(_, _) => NotANumber(false, 0)
    case _ => t
  }
}
