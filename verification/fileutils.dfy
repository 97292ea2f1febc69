/** `FilePerms` of boltons/fileutils.py: the nine permission bits of a
    POSIX file mode (S_IRUSR … S_IXOTH of `<sys/stat.h>`, POSIX.1 Base
    Definitions, chapter 13) kept both as three `rwx` strings and as an
    integer. The integer is only ever OR-ed into, so replacing a string
    never clears the bits of the one it replaces. */
module FileUtils {
  import opened Wrappers
  import opened PyList

  /** The three classes of user, each a property with its own offset. */
  datatype Party = User | Group | Other

  /** `user` has offset 2, `group` 1, `other` 0. */
  function Offset(who: Party): (r: nat)
    ensures r < 3
  {
    match who
    case User => 2
    case Group => 1
    case Other => 0
  }

  /** The shift that puts a party's three bits in place: `offset * 3`. */
  function Shift(who: Party): (r: bv9)
    ensures r as int == 3 * Offset(who)
  {
    match who
    case User => 6
    case Group => 3
    case Other => 0
  }

  predicate IsPermChar(c: char) {
    c == 'r' || c == 'w' || c == 'x'
  }

  /** A string with nothing left after deleting `r`, `w` and `x`. */
  predicate ValidPerm(value: string) {
    forall i :: 0 <= i < |value| ==> IsPermChar(value[i])
  }

  /** `2 ** 'xwr'.index(c)`: x is 1, w is 2, r is 4. */
  function Bit(c: char): bv9
    requires IsPermChar(c)
  {
    if c == 'x' then 1 else if c == 'w' then 2 else 4
  }

  /** The bits of a party's string before shifting: the OR of the bits of
      the letters it contains. */
  function GroupBits(value: string): (r: bv9)
    ensures r & 7 == r
  {
    (if 'r' in value then 4 else 0) | (if 'w' in value then 2 else 0) | (if 'x' in value then 1 else 0)
  }

  /** `''.join(sorted(set(value), key=_perm_val, reverse=True))`: the
      distinct letters of `value`, the one of highest value first. */
  function Canonical(value: string): (r: string)
    requires ValidPerm(value)
    ensures ValidPerm(r)
  {
    (if 'r' in value then "r" else "")
    + (if 'w' in value then "w" else "")
    + (if 'x' in value then "x" else "")
  }

  /** The eight strings a property can hold: letters in r, w, x order. */
  predicate IsCanonical(s: string) {
    s == "" || s == "r" || s == "w" || s == "x" || s == "rw" || s == "rx" || s == "wx" || s == "rwx"
  }

  /** The value of a `FilePerms`: its three strings and `_integer`. */
  datatype Perms = Perms(user: string, group: string, other: string, integer: bv9)

  function Field(p: Perms, who: Party): string {
    match who
    case User => p.user
    case Group => p.group
    case Other => p.other
  }

  function WithField(p: Perms, who: Party, value: string): (q: Perms)
    ensures Field(q, who) == value && q.integer == p.integer
    ensures forall w :: w != who ==> Field(q, w) == Field(p, w)
  {
    match who
    case User => p.(user := value)
    case Group => p.(group := value)
    case Other => p.(other := value)
  }

  /** The bits that `_update_integer` ORs in for `value` at `who`'s offset. */
  function ModeFor(who: Party, value: string): bv9
    requires ValidPerm(value)
  {
    GroupBits(value) << Shift(who)
  }

  /** `_FilePermProperty.__set__`: assigning the current value does
      nothing; a string with a letter other than r, w, x raises
      ValueError; otherwise the canonical string is stored and its bits
      are OR-ed into the integer. */
  function Assign(p: Perms, who: Party, value: string): Result<Perms> {
    if Field(p, who) == value then Ok(p)
    else if !ValidPerm(value) then Err(ValueError)
    else
      var nv := Canonical(value);
      Ok(WithField(p, who, nv).(integer := p.integer | ModeFor(who, nv)))
  }

  /** `FilePerms(user, group, other)`: the three assignments in order,
      starting from empty strings and a zero integer. */
  function New(user: string, group: string, other: string): Result<Perms> {
    var p0 := Perms("", "", "", 0);
    var p1 :- Assign(p0, User, user);
    var p2 :- Assign(p1, Group, group);
    Assign(p2, Other, other)
  }

  /** The mode the three strings stand for. */
  function Mode(p: Perms): bv9
    requires ValidPerm(p.user) && ValidPerm(p.group) && ValidPerm(p.other)
  {
    ModeFor(User, p.user) | ModeFor(Group, p.group) | ModeFor(Other, p.other)
  }

  /** Every bit of `a` is set in `x`. */
  predicate Covers(x: bv9, a: bv9) {
    x & a == a
  }

  /** What every `FilePerms` keeps: canonical strings whose bits are all set
      in the integer (which may hold more). */
  predicate Consistent(p: Perms) {
    forall w :: PartConsistent(p, w)
  }

  predicate PartConsistent(p: Perms, w: Party) {
    ValidPerm(Field(p, w)) && IsCanonical(Field(p, w)) && Covers(p.integer, ModeFor(w, Field(p, w)))
  }

  // ---------------------------------------------------------------------
  // the mutable object

  class FilePerms {
    var user: string
    var group: string
    var other: string
    var integer: bv9

    function State(): Perms
      reads this
    {
      Perms(user, group, other, integer)
    }

    /** The state `__init__` starts from before its three assignments. */
    constructor Empty()
      ensures State() == Perms("", "", "", 0)
    {
      user, group, other := "", "", "";
      integer := 0;
    }

    /** `__int__` */
    function Int(): (r: int)
      reads this
      ensures 0 <= r < 512
    {
      integer as int
    }

    /** `_update_integer`: OR each letter's bit, shifted to `who`'s place,
        into a mode, then the mode into the integer. */
    method UpdateInteger(who: Party, value: string)
      requires ValidPerm(value)
      modifies this
      ensures State() == old(State()).(integer := old(integer) | ModeFor(who, value))
    {
      var mode: bv9 := 0;
      for k := 0 to |value|
        invariant mode == ModeFor(who, value[..k])
        invariant State() == old(State())
      {
        BitsOfLonger(value[..k], value[k]);
        assert value[..k] + [value[k]] == value[..k + 1];
        mode := mode | (Bit(value[k]) << Shift(who));
      }
      assert value[..|value|] == value;
      integer := integer | mode;
    }

    /** `__set__` for the property of `who`. */
    method Set(who: Party, value: string) returns (r: Result<()>)
      modifies this
      ensures r.Ok? <==> Assign(old(State()), who, value).Ok?
      ensures r.Ok? ==> State() == Assign(old(State()), who, value).value
      ensures r.Err? ==> r.error == ValueError && State() == old(State())
    {
      var cur := Field(State(), who);
      if cur == value {
        return Ok(());
      }
      if !ValidPerm(value) {
        return Err(ValueError);
      }
      var nv := Canonical(value);
      match who {
        case User => user := nv;
        case Group => group := nv;
        case Other => other := nv;
      }
      UpdateInteger(who, nv);
      r := Ok(());
    }
  }

  /** `FilePerms(user, group, other)` on a fresh object. */
  method Make(user: string, group: string, other: string) returns (r: Result<FilePerms>)
    ensures r.Ok? <==> New(user, group, other).Ok?
    ensures r.Ok? ==> fresh(r.value) && r.value.State() == New(user, group, other).value
    ensures r.Err? ==> r.error == ValueError
  {
    var fp := new FilePerms.Empty();
    var ok := fp.Set(User, user);
    if ok.Err? {
      return Err(ok.error);
    }
    ok := fp.Set(Group, group);
    if ok.Err? {
      return Err(ok.error);
    }
    ok := fp.Set(Other, other);
    if ok.Err? {
      return Err(ok.error);
    }
    r := Ok(fp);
  }

  // ---------------------------------------------------------------------
  // from_int

  /** `('', 'x', 'w', 'xw', 'r', 'rx', 'rw', 'rwx')[k]` */
  function Key(k: bv9): (r: string)
    requires k < 8
    ensures ValidPerm(r)
  {
    if k == 0 then "" else if k == 1 then "x" else if k == 2 then "w" else if k == 3 then "xw"
    else if k == 4 then "r" else if k == 5 then "rx" else if k == 6 then "rw" else "rwx"
  }

  /** The groups of `m`, lowest first, as long as what is left is non-zero. */
  function LowGroups(m: bv9): seq<string>
    decreases m as int
  {
    if m == 0 then [] else [Key(m & 7)] + LowGroups(m >> 3)
  }

  /** The positional arguments `from_int` passes on for the masked value
      `m == i & 0o777`: its octal groups, the highest non-zero one first. */
  function FromIntParts(m: bv9): seq<string> {
    Reversed(LowGroups(m))
  }

  /** `cls(*parts)`: missing arguments default to the empty string. */
  function PartOr(parts: seq<string>, k: nat): string {
    if k < |parts| then parts[k] else ""
  }

  /** The value `FilePerms.from_int(i)` builds, given `m == i & 0o777`. */
  function FromIntValue(m: bv9): Perms {
    FromIntPartsValid(m);
    var parts := FromIntParts(m);
    NewSucceeds(PartOr(parts, 0), PartOr(parts, 1), PartOr(parts, 2));
    New(PartOr(parts, 0), PartOr(parts, 1), PartOr(parts, 2)).value
  }

  /** `FilePerms.from_int(i)`: mask to nine bits, peel off octal groups
      lowest first while anything is left, reverse them and pass them on
      as `user`, `group`, `other`. */
  method FromInt(i: int) returns (fp: FilePerms)
    ensures fresh(fp) && fp.State() == FromIntValue((i % 512) as bv9)
  {
    var m := (i % 512) as bv9;
    var low := OctalGroups(m);
    var parts := Reversed(low);
    FromIntValueIs(m, parts);
    var r := Make(PartOr(parts, 0), PartOr(parts, 1), PartOr(parts, 2));
    fp := r.value;
  }

  lemma FromIntValueIs(m: bv9, parts: seq<string>)
    requires parts == FromIntParts(m)
    ensures New(PartOr(parts, 0), PartOr(parts, 1), PartOr(parts, 2)).Ok?
    ensures FromIntValue(m) == New(PartOr(parts, 0), PartOr(parts, 1), PartOr(parts, 2)).value
  {
    FromIntPartsValid(m);
    NewSucceeds(PartOr(parts, 0), PartOr(parts, 1), PartOr(parts, 2));
  }

  /** The loop of `from_int`: `parts.append(key[i & 0o7]); i >>= 3` while
      `i` is non-zero. */
  method OctalGroups(m0: bv9) returns (parts: seq<string>)
    ensures parts == LowGroups(m0)
  {
    var m := m0;
    parts := [];
    while m != 0
      invariant parts + LowGroups(m) == LowGroups(m0)
      decreases m as int
    {
      GroupStep(parts, m, m0);
      parts := parts + [Key(m & 7)];
      m := m >> 3;
    }
    assert parts + [] == parts;
  }

  /** One turn of the loop above keeps its invariant and shrinks `i`. */
  lemma GroupStep(parts: seq<string>, m: bv9, m0: bv9)
    requires m != 0 && parts + LowGroups(m) == LowGroups(m0)
    ensures (parts + [Key(m & 7)]) + LowGroups(m >> 3) == LowGroups(m0)
    ensures (m >> 3) as int < m as int
  {
    var a, rest := Key(m & 7), LowGroups(m >> 3);
    assert LowGroups(m) == [a] + rest;
    assert (parts + [a]) + rest == parts + ([a] + rest);
  }

  /** The parts `from_int` passes on, by how many leading groups are zero. */
  lemma FromIntShape(m: bv9)
    ensures FromIntParts(m) == HighGroups(m)
  {
    LowGroupsShape(m);
    var h := HighGroups(m);
    assert |Reversed(LowGroups(m))| == |h|;
    assert forall k :: 0 <= k < |h| ==> Reversed(LowGroups(m))[k] == h[k];
  }

  /** The non-zero groups of a nine-bit value from the highest: its octal
      digits without leading zeros. */
  function HighGroups(m: bv9): seq<string> {
    if m == 0 then []
    else if m >> 3 == 0 then [Key(m & 7)]
    else if m >> 6 == 0 then [Key((m >> 3) & 7), Key(m & 7)]
    else [Key((m >> 6) & 7), Key((m >> 3) & 7), Key(m & 7)]
  }

  /** The groups of a nine-bit value, lowest first, by how many leading
      groups are zero. */
  lemma LowGroupsShape(m: bv9)
    ensures LowGroups(m) ==
      if m == 0 then []
      else if m >> 3 == 0 then [Key(m & 7)]
      else if m >> 6 == 0 then [Key(m & 7), Key((m >> 3) & 7)]
      else [Key(m & 7), Key((m >> 3) & 7), Key((m >> 6) & 7)]
  {
    if m != 0 {
      var a := Key(m & 7);
      var m3 := m >> 3;
      assert LowGroups(m) == [a] + LowGroups(m3);
      if m3 != 0 {
        var m6 := m3 >> 3;
        assert m6 == m >> 6 && m6 >> 3 == 0;
        assert LowGroups(m3) == [Key(m3 & 7)] + LowGroups(m6);
        if m6 != 0 {
          assert LowGroups(m6) == [Key(m6 & 7)] + LowGroups(0);
        }
      }
    }
  }

  /** Every part `from_int` passes on is one of the eight keys, and there
      are at most three. */
  lemma FromIntPartsValid(m: bv9)
    ensures |FromIntParts(m)| <= 3
    ensures ValidPerm(PartOr(FromIntParts(m), 0)) && ValidPerm(PartOr(FromIntParts(m), 1))
    ensures ValidPerm(PartOr(FromIntParts(m), 2))
  {
    FromIntShape(m);
  }

  // ---------------------------------------------------------------------
  // properties

  /** A value other than the current one with a letter outside r, w, x is
      refused with ValueError (so nothing is assigned). */
  lemma AssignRejectsInvalid(p: Perms, who: Party, value: string)
    requires Field(p, who) != value
    ensures Assign(p, who, value).Err? <==> !ValidPerm(value)
    ensures Assign(p, who, value).Err? ==> Assign(p, who, value).error == ValueError
  {
  }

  /** Assigning the current value changes nothing, not even the integer. */
  lemma AssignSameIsNoop(p: Perms, who: Party)
    ensures Assign(p, who, Field(p, who)) == Ok(p)
  {
  }

  /** A successful assignment is the canonical string in place of the old
      one, with the value's bits OR-ed into the integer. */
  lemma AssignOk(p: Perms, who: Party, value: string)
    requires Field(p, who) != value && ValidPerm(value)
    ensures Assign(p, who, value) == Ok(WithField(p, who, Canonical(value)).(integer := p.integer | ModeFor(who, value)))
  {
    CanonicalSameBits(value);
  }

  /** A successful assignment stores the value's letters in r, w, x order
      and leaves the other two strings alone. */
  lemma AssignStrings(p: Perms, who: Party, value: string)
    requires Field(p, who) != value && ValidPerm(value)
    ensures Assign(p, who, value).Ok?
    ensures Field(Assign(p, who, value).value, who) == Canonical(value)
    ensures forall w :: w != who ==> Field(Assign(p, who, value).value, w) == Field(p, w)
  {
  }

  /** A successful assignment keeps every bit the integer had and sets the
      bits of the new value: the integer only gains bits. */
  lemma AssignOnlyGainsBits(p: Perms, who: Party, value: string)
    requires Field(p, who) != value && ValidPerm(value)
    ensures Assign(p, who, value).Ok?
    ensures Assign(p, who, value).value.integer & p.integer == p.integer
    ensures Assign(p, who, value).value.integer & ModeFor(who, value) == ModeFor(who, value)
  {
    AssignOk(p, who, value);
    OrGains(p.integer, ModeFor(who, value));
  }

  lemma OrGains(x: bv9, n: bv9)
    ensures (x | n) & x == x && (x | n) & n == n
  {
  }

  /** The stored string holds each letter of the value once, r before w
      before x. */
  lemma CanonicalIsSortedSet(value: string)
    requires ValidPerm(value)
    ensures |Canonical(value)| <= 3
    ensures forall c :: c in Canonical(value) <==> c in value
    ensures forall i, j :: 0 <= i < j < |Canonical(value)| ==> Bit(Canonical(value)[i]) > Bit(Canonical(value)[j])
  {
  }

  /** The stored string is one of the eight canonical forms. */
  lemma CanonicalIsCanonical(value: string)
    requires ValidPerm(value)
    ensures IsCanonical(Canonical(value))
  {
  }

  /** Sorting and de-duplicating the letters does not change their bits. */
  lemma CanonicalSameBits(value: string)
    requires ValidPerm(value)
    ensures GroupBits(Canonical(value)) == GroupBits(value)
  {
  }

  /** The bits of a string are fixed by which of r, w, x it contains. */
  /** One more letter ORs its bit in. */
  lemma BitsOfLonger(value: string, c: char)
    requires IsPermChar(c)
    ensures GroupBits(value + [c]) == GroupBits(value) | Bit(c)
  {
    assert forall d :: d in value + [c] <==> d in value || d == c;
  }

  /** Assignment keeps a `FilePerms` consistent. */
  lemma AssignKeepsConsistent(p: Perms, who: Party, value: string)
    requires Consistent(p) && Assign(p, who, value).Ok?
    ensures Consistent(Assign(p, who, value).value)
  {
    if Field(p, who) != value {
      forall w
        ensures PartConsistent(Assign(p, who, value).value, w)
      {
        AssignKeepsPart(p, who, value, w);
      }
    }
  }

  lemma AssignKeepsPart(p: Perms, who: Party, value: string, w: Party)
    requires PartConsistent(p, w) && Field(p, who) != value && ValidPerm(value)
    ensures PartConsistent(Assign(p, who, value).value, w)
  {
    if w == who {
      AssignedPart(p, who, value);
    } else {
      KeptPart(p, who, value, w);
    }
  }

  /** The assigned string is canonical and its bits are set. */
  lemma AssignedPart(p: Perms, who: Party, value: string)
    requires Field(p, who) != value && ValidPerm(value)
    ensures PartConsistent(Assign(p, who, value).value, who)
  {
    AssignOk(p, who, value);
    var n := ModeFor(who, value);
    CanonicalSameBits(value);
    CanonicalIsCanonical(value);
    CoverNew(p.integer, n);
    PartOf(Assign(p, who, value).value, who, Canonical(value), p.integer | n);
  }

  /** The other two strings stay as they were, and their bits stay set. */
  lemma KeptPart(p: Perms, who: Party, value: string, w: Party)
    requires PartConsistent(p, w) && Field(p, who) != value && ValidPerm(value) && w != who
    ensures PartConsistent(Assign(p, who, value).value, w)
  {
    AssignOk(p, who, value);
    var n := ModeFor(who, value);
    CoverKept(p.integer, ModeFor(w, Field(p, w)), n);
    PartOf(Assign(p, who, value).value, w, Field(p, w), p.integer | n);
  }

  lemma PartOf(q: Perms, w: Party, s: string, x: bv9)
    requires Field(q, w) == s && ValidPerm(s) && IsCanonical(s) && q.integer == x && Covers(x, ModeFor(w, s))
    ensures PartConsistent(q, w)
  {
  }

  lemma CoverNew(x: bv9, n: bv9)
    ensures Covers(x | n, n)
  {
  }

  lemma CoverKept(x: bv9, a: bv9, n: bv9)
    requires Covers(x, a)
    ensures Covers(x | n, a)
  {
  }

  lemma CanonicalIdempotent(value: string)
    requires ValidPerm(value)
    ensures Canonical(Canonical(value)) == Canonical(value)
  {
  }

  /** The letters of 'xrw' and 'wxr' are both stored as 'rwx'. */
  lemma CanonicalExamples()
    ensures Canonical("xrw") == "rwx" && Canonical("wxr") == "rwx"
  {
  }

  /** Replacing a string keeps the bits of the one it replaces: user 'rwx'
      then user 'r' leaves 0o700, not 0o400. */
  lemma StaleBitsKept()
    ensures New("rwx", "", "").Ok?
    ensures Assign(New("rwx", "", "").value, User, "r") == Ok(Perms("r", "", "", 0x1C0))
  {
    BitsOfR();
    BitsOfRwx();
  }

  /** The constructor succeeds exactly when all three strings are made of
      r, w and x. */
  lemma NewSucceeds(user: string, group: string, other: string)
    ensures New(user, group, other).Ok? <==> ValidPerm(user) && ValidPerm(group) && ValidPerm(other)
  {
  }

  /** On a fresh object the integer is exactly the mode of the three strings. */
  lemma NewExact(user: string, group: string, other: string)
    requires ValidPerm(user) && ValidPerm(group) && ValidPerm(other)
    ensures New(user, group, other).Ok?
    ensures var p := New(user, group, other).value;
      && p == Perms(Canonical(user), Canonical(group), Canonical(other), p.integer)
      && p.integer == Mode(p)
  {
    var p0 := Perms("", "", "", 0);
    AssignIntoEmpty(p0, User, user);
    var p1 := Assign(p0, User, user).value;
    AssignIntoEmpty(p1, Group, group);
    var p2 := Assign(p1, Group, group).value;
    AssignIntoEmpty(p2, Other, other);
  }

  /** Assigning to a party whose string is still empty, on an object whose
      integer is exactly its mode, keeps the integer exactly the mode. */
  lemma AssignIntoEmpty(p: Perms, who: Party, value: string)
    requires ValidPerm(p.user) && ValidPerm(p.group) && ValidPerm(p.other)
    requires Field(p, who) == "" && p.integer == Mode(p) && ValidPerm(value)
    ensures Assign(p, who, value).Ok?
    ensures var q := Assign(p, who, value).value;
      && q == WithField(p, who, Canonical(value)).(integer := q.integer)
      && q.integer == Mode(q)
  {
    if value != "" {
      var nv := Canonical(value);
      var q := Assign(p, who, value).value;
      var n := ModeFor(who, nv);
      assert q.integer == p.integer | n;
      assert GroupBits("") == 0;
      match who {
        case User =>
          assert q == Perms(nv, p.group, p.other, q.integer);
          BitsOr3(ModeFor(User, ""), ModeFor(Group, p.group), ModeFor(Other, p.other), n);
        case Group =>
          assert q == Perms(p.user, nv, p.other, q.integer);
          BitsOr3(ModeFor(Group, ""), ModeFor(User, p.user), ModeFor(Other, p.other), n);
        case Other =>
          assert q == Perms(p.user, p.group, nv, q.integer);
          BitsOr3(ModeFor(Other, ""), ModeFor(User, p.user), ModeFor(Group, p.group), n);
      }
    }
  }

  lemma BitsOr3(z: bv9, a: bv9, b: bv9, n: bv9)
    requires z == 0
    ensures (z | a | b) | n == n | a | b == a | n | b == a | b | n
  {
  }

  lemma BitsOfR()
    ensures Canonical("r") == "r" && GroupBits("r") == 4
  {
  }

  lemma BitsOfRwx()
    ensures Canonical("rwx") == "rwx" && GroupBits("rwx") == 7
  {
  }

  /** `FilePerms('r', 'r', '')` is 0o440. */
  lemma ReadReadIs440()
    ensures New("r", "r", "") == Ok(Perms("r", "r", "", 0x120))
  {
    BitsOfR();
  }

  /** Each of the eight keys stands for its index. */
  lemma KeyBits(k: bv9)
    requires k < 8
    ensures GroupBits(Key(k)) == k
  {
  }

  /** A `FilePerms` built from three keys holds their canonical forms and
      the integer whose octal digits are the three indexes. */
  lemma NewOfKeys(a: bv9, b: bv9, c: bv9)
    requires a < 8 && b < 8 && c < 8
    ensures New(Key(a), Key(b), Key(c)) == Ok(Perms(Canonical(Key(a)), Canonical(Key(b)), Canonical(Key(c)), (a << 6) | (b << 3) | c))
  {
    KeyBits(a);
    KeyBits(b);
    KeyBits(c);
    NewOfBits(Key(a), Key(b), Key(c), a, b, c);
  }

  lemma NewOfBits(user: string, group: string, other: string, a: bv9, b: bv9, c: bv9)
    requires ValidPerm(user) && ValidPerm(group) && ValidPerm(other)
    requires GroupBits(user) == a && GroupBits(group) == b && GroupBits(other) == c
    ensures New(user, group, other) == Ok(Perms(Canonical(user), Canonical(group), Canonical(other), (a << 6) | (b << 3) | c))
  {
    NewExact(user, group, other);
    CanonicalSameBits(user);
    CanonicalSameBits(group);
    CanonicalSameBits(other);
  }

  /** The digits of `m` without leading zeros, padded with key 0 at the end:
      the three keys `from_int` passes on. */
  lemma FromIntKeys(m: bv9)
    ensures
      var parts := FromIntParts(m);
      && (m >> 6 != 0 ==> PartOr(parts, 0) == Key(m >> 6) && PartOr(parts, 1) == Key((m >> 3) & 7) && PartOr(parts, 2) == Key(m & 7))
      && (m >> 6 == 0 && m >> 3 != 0 ==> PartOr(parts, 0) == Key(m >> 3) && PartOr(parts, 1) == Key(m & 7) && PartOr(parts, 2) == Key(0))
      && (m >> 3 == 0 ==> PartOr(parts, 0) == Key(m) && PartOr(parts, 1) == Key(0) && PartOr(parts, 2) == Key(0))
  {
    FromIntShape(m);
  }

  /** With non-zero user bits, `from_int` keeps every bit: its integer is
      `i & 0o777` and the three strings are its octal digits. */
  lemma FromIntUserBitsSet(m: bv9)
    requires m >> 6 != 0
    ensures
      FromIntValue(m) == Perms(Canonical(Key(m >> 6)), Canonical(Key((m >> 3) & 7)), Canonical(Key(m & 7)), m)
  {
    var parts := FromIntParts(m);
    FromIntKeys(m);
    var a, b, c := m >> 6, (m >> 3) & 7, m & 7;
    assert PartOr(parts, 0) == Key(a) && PartOr(parts, 1) == Key(b) && PartOr(parts, 2) == Key(c);
    NewOfKeys(a, b, c);
    OctalDigits(m);
    assert FromIntValue(m) == New(Key(a), Key(b), Key(c)).value;
  }

  lemma OctalDigits(m: bv9)
    ensures ((m >> 6) << 6) | (((m >> 3) & 7) << 3) | (m & 7) == m
  {
  }

  lemma TwoDigits(m: bv9)
    requires m >> 6 == 0
    ensures ((m >> 3) << 6) | ((m & 7) << 3) | 0 == m << 3
  {
  }

  /** With zero user bits, `from_int` drops the leading zero group: the
      group digit lands in `user`, the other digit in `group`, and the
      integer is shifted up by three bits. */
  lemma FromIntDropsZeroUser(m: bv9)
    requires m >> 6 == 0 && m >> 3 != 0
    ensures
      FromIntValue(m) == Perms(Canonical(Key(m >> 3)), Canonical(Key(m & 7)), "", m << 3)
  {
    var parts := FromIntParts(m);
    FromIntKeys(m);
    var a, b, c := m >> 3, m & 7, 0;
    assert PartOr(parts, 0) == Key(a) && PartOr(parts, 1) == Key(b) && PartOr(parts, 2) == Key(c);
    NewOfKeys(a, b, c);
    TwoDigits(m);
    assert Canonical(Key(0)) == "";
    assert FromIntValue(m) == New(Key(a), Key(b), Key(c)).value;
  }

  /** With only `other` bits, they land in `user`; `from_int(0)` is the
      empty `FilePerms`. */
  lemma FromIntOnlyOther(m: bv9)
    requires m >> 3 == 0
    ensures
      FromIntValue(m) == Perms(Canonical(Key(m)), "", "", m << 6)
    ensures m == 0 ==> FromIntValue(m) == Perms("", "", "", 0)
  {
    var parts := FromIntParts(m);
    FromIntKeys(m);
    var a, b, c := m, 0, 0;
    assert PartOr(parts, 0) == Key(a) && PartOr(parts, 1) == Key(b) && PartOr(parts, 2) == Key(c);
    NewOfKeys(a, b, c);
    assert (m << 6) | (0 << 3) | 0 == m << 6;
    assert Canonical(Key(0)) == "";
    assert FromIntValue(m) == New(Key(a), Key(b), Key(c)).value;
  }

  /** The string stored for key `k`. */
  lemma StoredKey(k: bv9, s: string)
    requires k < 8
    requires s == ["", "x", "w", "wx", "r", "rx", "rw", "rwx"][k as int]
    ensures Canonical(Key(k)) == s
  {
  }

  /** `FilePerms.from_int(0o644)` is `FilePerms(user='rw', group='r', other='r')`. */
  lemma FromInt644(m: bv9)
    requires m == 0x1A4
    ensures FromIntValue(m) == Perms("rw", "r", "r", 0x1A4)
  {
    FromIntUserBitsSet(m);
    assert m >> 6 == 6 && (m >> 3) & 7 == 4 && m & 7 == 4;
    StoredKey(6, "rw");
    StoredKey(4, "r");
  }

  /** `from_int(0o044)` puts the two read bits in user and group: 0o440. */
  lemma FromInt044(m: bv9)
    requires m == 0x24
    ensures FromIntValue(m) == Perms("r", "r", "", 0x120)
  {
    FromIntDropsZeroUser(m);
    assert m >> 3 == 4 && m & 7 == 4 && m << 3 == 0x120;
    StoredKey(4, "r");
  }

  /** `from_int(3)` stores the key 'xw' in r, w, x order. */
  lemma FromInt3(m: bv9)
    requires m == 3
    ensures FromIntValue(m) == Perms("wx", "", "", 0xC0)
  {
    FromIntOnlyOther(m);
    StoredKey(3, "wx");
  }

  // ---------------------------------------------------------------------
  // the intended behaviour of from_int and of the property assignment

  /** `from_int` as its docstring means it: the three octal digits of
      `i & 0o777`, leading zeros included, as `user`, `group`, `other`. */
  function FromIntFixedValue(m: bv9): Perms {
    NewOfKeys(m >> 6, (m >> 3) & 7, m & 7);
    New(Key(m >> 6), Key((m >> 3) & 7), Key(m & 7)).value
  }

  /** The intended `from_int` keeps every bit: `int(from_int(i)) == i & 0o777`,
      and each string is its own octal digit; it agrees with the code
      whenever the user bits are not all zero. */
  lemma FromIntFixedExact(m: bv9)
    ensures FromIntFixedValue(m) == Perms(Canonical(Key(m >> 6)), Canonical(Key((m >> 3) & 7)), Canonical(Key(m & 7)), m)
    ensures FromIntFixedValue(m).integer == Mode(FromIntFixedValue(m))
    ensures m >> 6 != 0 ==> FromIntFixedValue(m) == FromIntValue(m)
  {
    NewOfKeys(m >> 6, (m >> 3) & 7, m & 7);
    OctalDigits(m);
    NewExact(Key(m >> 6), Key((m >> 3) & 7), Key(m & 7));
    if m >> 6 != 0 {
      FromIntUserBitsSet(m);
    }
  }

  /** The intended `from_int(0o044)`: group and other read, 0o044. */
  lemma FromIntFixed044(m: bv9)
    requires m == 0x24
    ensures FromIntFixedValue(m) == Perms("", "r", "r", 0x24)
  {
    FromIntFixedExact(m);
    assert m >> 6 == 0 && (m >> 3) & 7 == 4 && m & 7 == 4;
    StoredKey(0, "");
    StoredKey(4, "r");
  }

  /** The bits of one party's group. */
  function GroupMask(who: Party): bv9 {
    7 << Shift(who)
  }

  /** The property assignment as intended: the party's old bits are
      cleared before the new value's bits are set, so the integer follows
      the strings. */
  function AssignFixed(p: Perms, who: Party, value: string): Result<Perms> {
    if Field(p, who) == value then Ok(p)
    else if !ValidPerm(value) then Err(ValueError)
    else
      var nv := Canonical(value);
      Ok(WithField(p, who, nv).(integer := (p.integer & !GroupMask(who)) | ModeFor(who, nv)))
  }

  /** With the old bits cleared the integer stays exactly the mode of the
      three strings, and the assignment fails exactly as the code's does. */
  lemma AssignFixedExact(p: Perms, who: Party, value: string)
    requires ValidPerm(p.user) && ValidPerm(p.group) && ValidPerm(p.other) && p.integer == Mode(p)
    ensures AssignFixed(p, who, value).Ok? <==> Assign(p, who, value).Ok?
    ensures AssignFixed(p, who, value).Err? ==> AssignFixed(p, who, value).error == ValueError
    ensures AssignFixed(p, who, value).Ok? ==>
      var q := AssignFixed(p, who, value).value;
      && ValidPerm(q.user) && ValidPerm(q.group) && ValidPerm(q.other)
      && q.integer == Mode(q)
      && q == Assign(p, who, value).value.(integer := q.integer)
  {
    if Field(p, who) != value && ValidPerm(value) {
      var nv := Canonical(value);
      ClearedMode(p, who, nv, AssignFixed(p, who, value).value);
    }
  }

  /** Clearing a party's group and setting new bits there keeps the
      integer exactly the mode of the strings. */
  lemma ClearedMode(p: Perms, who: Party, nv: string, q: Perms)
    requires ValidPerm(p.user) && ValidPerm(p.group) && ValidPerm(p.other) && p.integer == Mode(p) && ValidPerm(nv)
    requires q == WithField(p, who, nv).(integer := (p.integer & !GroupMask(who)) | ModeFor(who, nv))
    ensures ValidPerm(q.user) && ValidPerm(q.group) && ValidPerm(q.other) && q.integer == Mode(q)
  {
    assert q == match who
      case User => Perms(nv, p.group, p.other, q.integer)
      case Group => Perms(p.user, nv, p.other, q.integer)
      case Other => Perms(p.user, p.group, nv, q.integer);
    match who {
      case User => ClearedUser(p, nv, q);
      case Group => ClearedGroup(p, nv, q);
      case Other => ClearedOther(p, nv, q);
    }
  }

  lemma ClearedUser(p: Perms, nv: string, q: Perms)
    requires ValidPerm(p.user) && ValidPerm(p.group) && ValidPerm(p.other) && p.integer == Mode(p) && ValidPerm(nv)
    requires q == Perms(nv, p.group, p.other, (p.integer & !GroupMask(User)) | ModeFor(User, nv))
    ensures q.integer == Mode(q)
  {
    ModeIs(p);
    ModeIs(q);
    ClearUser(p.integer, GroupBits(p.user), GroupBits(p.group), GroupBits(p.other), GroupBits(nv));
  }

  lemma ClearedGroup(p: Perms, nv: string, q: Perms)
    requires ValidPerm(p.user) && ValidPerm(p.group) && ValidPerm(p.other) && p.integer == Mode(p) && ValidPerm(nv)
    requires q == Perms(p.user, nv, p.other, (p.integer & !GroupMask(Group)) | ModeFor(Group, nv))
    ensures q.integer == Mode(q)
  {
    ModeIs(p);
    ModeIs(q);
    ClearGroup(p.integer, GroupBits(p.user), GroupBits(p.group), GroupBits(p.other), GroupBits(nv));
  }

  lemma ClearedOther(p: Perms, nv: string, q: Perms)
    requires ValidPerm(p.user) && ValidPerm(p.group) && ValidPerm(p.other) && p.integer == Mode(p) && ValidPerm(nv)
    requires q == Perms(p.user, p.group, nv, (p.integer & !GroupMask(Other)) | ModeFor(Other, nv))
    ensures q.integer == Mode(q)
  {
    ModeIs(p);
    ModeIs(q);
    ClearOther(p.integer, GroupBits(p.user), GroupBits(p.group), GroupBits(p.other), GroupBits(nv));
  }

  /** The mode of three strings, digit by digit. */
  lemma ModeIs(p: Perms)
    requires ValidPerm(p.user) && ValidPerm(p.group) && ValidPerm(p.other)
    ensures Mode(p) == (GroupBits(p.user) << 6) | (GroupBits(p.group) << 3) | (GroupBits(p.other) << 0)
  {
  }

  lemma ClearUser(x: bv9, u: bv9, g: bv9, o: bv9, n: bv9)
    requires u & 7 == u && g & 7 == g && o & 7 == o && n & 7 == n
    requires x == (u << 6) | (g << 3) | (o << 0)
    ensures (x & !GroupMask(User)) | (n << Shift(User)) == (n << 6) | (g << 3) | (o << 0)
  {
  }

  lemma ClearGroup(x: bv9, u: bv9, g: bv9, o: bv9, n: bv9)
    requires u & 7 == u && g & 7 == g && o & 7 == o && n & 7 == n
    requires x == (u << 6) | (g << 3) | (o << 0)
    ensures (x & !GroupMask(Group)) | (n << Shift(Group)) == (u << 6) | (n << 3) | (o << 0)
  {
  }

  lemma ClearOther(x: bv9, u: bv9, g: bv9, o: bv9, n: bv9)
    requires u & 7 == u && g & 7 == g && o & 7 == o && n & 7 == n
    requires x == (u << 6) | (g << 3) | (o << 0)
    ensures (x & !GroupMask(Other)) | (n << Shift(Other)) == (u << 6) | (g << 3) | (n << 0)
  {
  }

  /** The intended assignment of user 'r' after user 'rwx' leaves 0o400. */
  lemma StaleBitsCleared()
    ensures New("rwx", "", "").Ok?
    ensures AssignFixed(New("rwx", "", "").value, User, "r") == Ok(Perms("r", "", "", 0x100))
  {
    BitsOfR();
    BitsOfRwx();
  }
}
