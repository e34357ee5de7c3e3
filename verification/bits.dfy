/** Bit masks of the userAccountControl and groupType attributes, and the
    fixed tables that map the account options and group scopes to their
    bits (src/adldap/ad_utils.cpp).  The C++ `int` masks are 32 bits wide
    and only combined bitwise, so they are `bv32` here. */
module BitFlags {

  /** `mask` with `bit` set when `enable` holds and cleared otherwise. */
  function BitSet(mask: bv32, bit: bv32, enable: bool): (r: bv32)
  {
    if enable then mask | bit else mask & !bit
  }

  /** Within `bit` the result is all ones or all zeros as `enable` says;
      outside `bit` it is `mask`. */
  lemma BitSetEffect(mask: bv32, bit: bv32, enable: bool)
    ensures enable ==> BitSet(mask, bit, enable) & bit == bit
    ensures !enable ==> BitSet(mask, bit, enable) & bit == 0
    ensures BitSet(mask, bit, enable) & !bit == mask & !bit
  {
    if enable {
      SetEffect(mask, bit);
    } else {
      ClearEffect(mask, bit);
    }
  }

  lemma SetEffect(mask: bv32, bit: bv32)
    ensures BitSet(mask, bit, true) & bit == bit
    ensures BitSet(mask, bit, true) & !bit == mask & !bit
  {
  }

  lemma ClearEffect(mask: bv32, bit: bv32)
    ensures BitSet(mask, bit, false) & bit == 0
    ensures BitSet(mask, bit, false) & !bit == mask & !bit
  {
  }

  /** Whether `mask` shares any bit with `bit`. */
  function BitIsSet(mask: bv32, bit: bv32): (isSet: bool)
  {
    mask & bit != 0
  }

  /** Exactly one bit is set. */
  predicate IsSingleBit(x: bv32)
  {
    x != 0 && x & (x - 1) == 0
  }

  /** Setting a non-zero bit makes it read as set, clearing makes it read
      as clear. */
  lemma BitSetThenIsSet(mask: bv32, bit: bv32, enable: bool)
    requires bit != 0
    ensures BitIsSet(BitSet(mask, bit, enable), bit) == enable
  {
  }

  /** A bit disjoint from the one set or cleared reads as before. */
  lemma BitSetKeepsOthers(mask: bv32, bit: bv32, enable: bool, other: bv32)
    requires other & bit == 0
    ensures BitIsSet(BitSet(mask, bit, enable), other) == BitIsSet(mask, other)
  {
    if enable {
      SetKeepsOthers(mask, bit, other);
    } else {
      ClearKeepsOthers(mask, bit, other);
    }
  }

  lemma SetKeepsOthers(mask: bv32, bit: bv32, other: bv32)
    requires other & bit == 0
    ensures BitIsSet(BitSet(mask, bit, true), other) == BitIsSet(mask, other)
  {
  }

  lemma ClearKeepsOthers(mask: bv32, bit: bv32, other: bv32)
    requires other & bit == 0
    ensures BitIsSet(BitSet(mask, bit, false), other) == BitIsSet(mask, other)
  {
    ClearedOther(mask, bit, other);
  }

  lemma ClearedOther(mask: bv32, bit: bv32, other: bv32)
    requires other & bit == 0
    ensures BitSet(mask, bit, false) & other == mask & other
  {
    MaskedOther(mask, bit, other);
  }

  lemma MaskedOther(mask: bv32, bit: bv32, other: bv32)
    requires other & bit == 0
    ensures (mask & !bit) & other == mask & other
  {
  }

  /** A zero bit is inert: it never reads as set and setting it changes
      nothing.  This is why the table entries that are 0 are harmless. */
  lemma ZeroBitIsInert(mask: bv32, enable: bool)
    ensures !BitIsSet(mask, 0)
    ensures BitSet(mask, 0, enable) == mask
  {
  }

  datatype AccountOption =
    | Disabled
    | CantChangePassword
    | PasswordExpired
    | DontExpirePassword
    | UseDesKey
    | SmartcardRequired
    | CantDelegate
    | DontRequirePreauth
    | AccountOptionCount

  /** Options with a bit of their own in userAccountControl; the others are
      decided elsewhere (an access-control entry, the password timestamp). */
  predicate HasAccountBit(option: AccountOption)
  {
    !(option.CantChangePassword? || option.PasswordExpired? || option.AccountOptionCount?)
  }

  /** account_option_bit. */
  function AccountOptionBit(option: AccountOption): (bit: bv32)
    ensures bit == 0 <==> !HasAccountBit(option)
    ensures bit != 0 ==> IsSingleBit(bit)
  {
    match option
    case Disabled => 0x0000_0002
    case DontExpirePassword => 0x0001_0000
    case UseDesKey => 0x0020_0000
    case SmartcardRequired => 0x0004_0000
    case DontRequirePreauth => 0x0040_0000
    case CantDelegate => 0x0010_0000
    case CantChangePassword => 0
    case PasswordExpired => 0
    case AccountOptionCount => 0
  }

  /** Distinct options with bits have disjoint bits. */
  lemma AccountOptionBitsDisjoint(a: AccountOption, b: AccountOption)
    requires a != b
    ensures AccountOptionBit(a) & AccountOptionBit(b) == 0
  {
  }

  /** Toggling one account option never changes how another one reads. */
  lemma AccountOptionsIndependent(mask: bv32, a: AccountOption, b: AccountOption, enable: bool)
    requires a != b
    ensures BitIsSet(BitSet(mask, AccountOptionBit(a), enable), AccountOptionBit(b))
         == BitIsSet(mask, AccountOptionBit(b))
  {
    AccountOptionBitsDisjoint(a, b);
    if AccountOptionBit(a) == 0 {
      ZeroBitIsInert(mask, enable);
    } else {
      BitSetKeepsOthers(mask, AccountOptionBit(a), enable, AccountOptionBit(b));
    }
  }

  /** Setting an account option with a bit makes it read as set; clearing
      makes it read as clear. */
  lemma AccountOptionSetReads(mask: bv32, option: AccountOption, enable: bool)
    requires HasAccountBit(option)
    ensures BitIsSet(BitSet(mask, AccountOptionBit(option), enable), AccountOptionBit(option)) == enable
  {
    BitSetThenIsSet(mask, AccountOptionBit(option), enable);
  }

  datatype GroupScope = Global | DomainLocal | Universal | GroupScopeCount

  /** group_scope_bit. */
  function GroupScopeBit(scope: GroupScope): (bit: bv32)
    ensures bit == 0 <==> scope.GroupScopeCount?
    ensures bit != 0 ==> IsSingleBit(bit)
  {
    match scope
    case Global => 0x0000_0002
    case DomainLocal => 0x0000_0004
    case Universal => 0x0000_0008
    case GroupScopeCount => 0
  }

  /** Distinct scopes have disjoint bits. */
  lemma GroupScopeBitsDisjoint(a: GroupScope, b: GroupScope)
    requires a != b
    ensures GroupScopeBit(a) & GroupScopeBit(b) == 0
  {
  }
}
