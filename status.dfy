/**
 * The visibility status of one element: a bit set with one bit per flag.
 *
 * The status code is an 8-bit value. The seven flags occupy bits 1 to 7
 * (bit 0 is never used). A status that has never been set has no code at
 * all in the JavaScript code; it behaves as 0 under `|` and `&`, and the
 * model writes it as BLANK == 0.
 */
module Status {

  datatype Option<T> = None | Some(value: T)

  type StatusCode = bv8

  const BLANK: StatusCode := 0

  const STATUS_VISIBLE: StatusCode := 1 << 1
  const STATUS_FIRST_VISIBLE: StatusCode := 1 << 2
  const STATUS_LAST_VISIBLE: StatusCode := 1 << 3
  const STATUS_PARTIALLY_VISIBLE: StatusCode := 1 << 4
  const STATUS_FIRST_PARTIALLY_VISIBLE: StatusCode := 1 << 5
  const STATUS_LAST_PARTIALLY_VISIBLE: StatusCode := 1 << 6
  const STATUS_PARTIALLY_VISIBLE_WITH_NO_VISIBLE_SIBLINGS: StatusCode := 1 << 7

  /** The seven flags a status can carry. */
  datatype Flag =
    | Visible
    | FirstVisible
    | LastVisible
    | PartiallyVisible
    | FirstPartiallyVisible
    | LastPartiallyVisible
    | PartiallyVisibleWithNoVisibleSiblings

  /** The bit of a flag: the STATUS_ constant of the same name. */
  function Bit(f: Flag): StatusCode
  {
    match f
    case Visible => STATUS_VISIBLE
    case FirstVisible => STATUS_FIRST_VISIBLE
    case LastVisible => STATUS_LAST_VISIBLE
    case PartiallyVisible => STATUS_PARTIALLY_VISIBLE
    case FirstPartiallyVisible => STATUS_FIRST_PARTIALLY_VISIBLE
    case LastPartiallyVisible => STATUS_LAST_PARTIALLY_VISIBLE
    case PartiallyVisibleWithNoVisibleSiblings => STATUS_PARTIALLY_VISIBLE_WITH_NO_VISIBLE_SIBLINGS
  }

  /** Each flag is a single bit other than bit 0, and no two flags share a bit. */
  lemma BitsAreDistinct(f: Flag, g: Flag)
    ensures Bit(f) != 0 && Bit(f) & 1 == 0
    ensures Bit(f) & (Bit(f) - 1) == 0
    ensures f != g ==> Bit(f) & Bit(g) == 0
  {
    match f
    case Visible =>
    case FirstVisible =>
    case LastVisible =>
    case PartiallyVisible =>
    case FirstPartiallyVisible =>
    case LastPartiallyVisible =>
    case PartiallyVisibleWithNoVisibleSiblings =>
  }

  /** A code made of flag bits only (bit 0 clear). */
  predicate WellFormed(c: StatusCode)
  {
    c & 1 == 0
  }

  /** The read mode of checkOrSetStatus: is the flag's bit set? */
  predicate HasFlag(c: StatusCode, f: Flag)
  {
    c & Bit(f) != 0
  }

  /** checkOrSetStatus(true, f): OR in the flag's bit. */
  function SetFlag(c: StatusCode, f: Flag): (r: StatusCode)
    ensures HasFlag(r, f) && r != BLANK
    ensures forall g :: g != f ==> (HasFlag(r, g) <==> HasFlag(c, g))
    ensures WellFormed(c) ==> WellFormed(r)
    ensures HasFlag(c, f) ==> r == c
  {
    AllBitsDistinctFrom(f);
    c | Bit(f)
  }

  /** checkOrSetStatus(false, f): XOR the flag's bit, which flips it (it clears the flag only when it was set). */
  function ToggleFlag(c: StatusCode, f: Flag): (r: StatusCode)
    ensures HasFlag(r, f) <==> !HasFlag(c, f)
    ensures forall g :: g != f ==> (HasFlag(r, g) <==> HasFlag(c, g))
    ensures WellFormed(c) ==> WellFormed(r)
    ensures r ^ Bit(f) == c
  {
    AllBitsDistinctFrom(f);
    c ^ Bit(f)
  }

  lemma AllBitsDistinctFrom(f: Flag)
    ensures Bit(f) != 0 && Bit(f) & 1 == 0 && Bit(f) & (Bit(f) - 1) == 0
    ensures forall g :: g != f ==> Bit(f) & Bit(g) == 0
  {
    forall g | g != f ensures Bit(f) & Bit(g) == 0 {
      BitsAreDistinct(f, g);
    }
    BitsAreDistinct(f, f);
  }

  /** The whole update of checkOrSetStatus: no value reads, true sets, false toggles. */
  function CheckOrSet(c: StatusCode, value: Option<bool>, f: Flag): (r: StatusCode)
    ensures value == None ==> r == c
    ensures value == Some(true) ==> HasFlag(r, f)
    ensures value == Some(false) ==> (HasFlag(r, f) <==> !HasFlag(c, f))
    ensures forall g :: g != f ==> (HasFlag(r, g) <==> HasFlag(c, g))
  {
    match value
    case None => c
    case Some(b) => if b then SetFlag(c, f) else ToggleFlag(c, f)
  }

  /**
   * Two well-formed codes are equal exactly when they carry the same flags,
   * so comparing codes compares flag sets.
   */
  lemma SameFlagsSameCode(a: StatusCode, b: StatusCode)
    requires WellFormed(a) && WellFormed(b)
    ensures (a == b) <==> (forall f :: HasFlag(a, f) == HasFlag(b, f))
  {
    if forall f :: HasFlag(a, f) == HasFlag(b, f) {
      assert HasFlag(a, Visible) == HasFlag(b, Visible);
      assert HasFlag(a, FirstVisible) == HasFlag(b, FirstVisible);
      assert HasFlag(a, LastVisible) == HasFlag(b, LastVisible);
      assert HasFlag(a, PartiallyVisible) == HasFlag(b, PartiallyVisible);
      assert HasFlag(a, FirstPartiallyVisible) == HasFlag(b, FirstPartiallyVisible);
      assert HasFlag(a, LastPartiallyVisible) == HasFlag(b, LastPartiallyVisible);
      assert HasFlag(a, PartiallyVisibleWithNoVisibleSiblings) == HasFlag(b, PartiallyVisibleWithNoVisibleSiblings);
    }
  }

  /** Equal codes carry the same flags; for well-formed codes the converse holds too. */
  lemma CodeEqualityIsFlagEquality(a: StatusCode, b: StatusCode)
    ensures a == b ==> forall f :: HasFlag(a, f) == HasFlag(b, f)
    ensures WellFormed(a) && WellFormed(b) ==> ((a == b) <==> forall f :: HasFlag(a, f) == HasFlag(b, f))
  {
    if WellFormed(a) && WellFormed(b) {
      SameFlagsSameCode(a, b);
    }
  }

  /** A code that has no flag at all is the blank code. */
  lemma NoFlagsIsBlank(c: StatusCode)
    requires WellFormed(c)
    ensures (c == BLANK) <==> (forall f :: !HasFlag(c, f))
  {
    SameFlagsSameCode(c, BLANK);
  }

  /**
   * One status object. Its methods are the flag accessors: called with no
   * value they read the flag; with a value they update the code in place
   * first and then read.
   */
  class VisibilityStatus {
    var statusCode: StatusCode

    ghost predicate Valid()
      reads this
    {
      WellFormed(statusCode)
    }

    constructor ()
      ensures Valid() && statusCode == BLANK
    {
      statusCode := BLANK;
    }

    /** checkOrSetStatus: `|=` with the flag's bit is SetFlag, `^=` is ToggleFlag, `&` reads it back. */
    method CheckOrSetStatus(value: Option<bool>, status: Flag) returns (r: bool)
      requires Valid()
      modifies this
      ensures Valid()
      ensures statusCode == CheckOrSet(old(statusCode), value, status)
      ensures r == HasFlag(statusCode, status)
    {
      if value.Some? {
        if value.value {
          statusCode := SetFlag(statusCode, status);
        } else {
          statusCode := ToggleFlag(statusCode, status);
        }
      }
      r := HasFlag(statusCode, status);
    }

    method IsVisible(value: Option<bool>) returns (r: bool)
      requires Valid()
      modifies this
      ensures Valid()
      ensures statusCode == CheckOrSet(old(statusCode), value, Visible)
      ensures r == HasFlag(statusCode, Visible)
    {
      r := CheckOrSetStatus(value, Visible);
    }

    method IsFirstVisible(value: Option<bool>) returns (r: bool)
      requires Valid()
      modifies this
      ensures Valid()
      ensures statusCode == CheckOrSet(old(statusCode), value, FirstVisible)
      ensures r == HasFlag(statusCode, FirstVisible)
    {
      r := CheckOrSetStatus(value, FirstVisible);
    }

    method IsLastVisible(value: Option<bool>) returns (r: bool)
      requires Valid()
      modifies this
      ensures Valid()
      ensures statusCode == CheckOrSet(old(statusCode), value, LastVisible)
      ensures r == HasFlag(statusCode, LastVisible)
    {
      r := CheckOrSetStatus(value, LastVisible);
    }

    method IsPartiallyVisible(value: Option<bool>) returns (r: bool)
      requires Valid()
      modifies this
      ensures Valid()
      ensures statusCode == CheckOrSet(old(statusCode), value, PartiallyVisible)
      ensures r == HasFlag(statusCode, PartiallyVisible)
    {
      r := CheckOrSetStatus(value, PartiallyVisible);
    }

    method IsFirstPartiallyVisible(value: Option<bool>) returns (r: bool)
      requires Valid()
      modifies this
      ensures Valid()
      ensures statusCode == CheckOrSet(old(statusCode), value, FirstPartiallyVisible)
      ensures r == HasFlag(statusCode, FirstPartiallyVisible)
    {
      r := CheckOrSetStatus(value, FirstPartiallyVisible);
    }

    method IsLastPartiallyVisible(value: Option<bool>) returns (r: bool)
      requires Valid()
      modifies this
      ensures Valid()
      ensures statusCode == CheckOrSet(old(statusCode), value, LastPartiallyVisible)
      ensures r == HasFlag(statusCode, LastPartiallyVisible)
    {
      r := CheckOrSetStatus(value, LastPartiallyVisible);
    }

    method IsPartiallyVisibleWithNoVisibleSiblings(value: Option<bool>) returns (r: bool)
      requires Valid()
      modifies this
      ensures Valid()
      ensures statusCode == CheckOrSet(old(statusCode), value, PartiallyVisibleWithNoVisibleSiblings)
      ensures r == HasFlag(statusCode, PartiallyVisibleWithNoVisibleSiblings)
    {
      r := CheckOrSetStatus(value, PartiallyVisibleWithNoVisibleSiblings);
    }

    /** Statuses compare by their codes, which for valid statuses means by their flag sets. */
    function Equals(other: VisibilityStatus): (r: bool)
      reads this, other
      ensures r ==> forall f :: HasFlag(statusCode, f) == HasFlag(other.statusCode, f)
      ensures WellFormed(statusCode) && WellFormed(other.statusCode) ==>
                (r <==> forall f :: HasFlag(statusCode, f) == HasFlag(other.statusCode, f))
    {
      CodeEqualityIsFlagEquality(statusCode, other.statusCode);
      statusCode == other.statusCode
    }
  }
}
