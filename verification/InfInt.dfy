/** InfInt.h: signed integers of any size, kept as a sign and a vector of base-10^9 digits that
    each operation updates in place and then corrects. */
module InfInts {
  import opened Digits
  import opened Products
  import opened Decimal
  import opened DecimalText
  import opened Quotients

  /** x has the sign d (1 or -1), or is zero. */
  predicate SignOf(x: int32, d: int32) { if d == 1 then 0 <= x < BASE else d == -1 && -BASE < x <= 0 }

  /** All digits from position i on have the sign d. */
  predicate OfSign(s: seq<int32>, i: int, d: int32) { forall j :: 0 <= j < |s| && i <= j ==> SignOf(s[j], d) }

  /** Some digit from position i on is not zero. */
  ghost predicate SomeNonZero(s: seq<int32>, i: int) { exists j :: 0 <= j < |s| && i <= j && s[j] != 0 }

  class InfInt {
    var val: seq<int32>
    var pos: bool

    /** What every operation leaves behind and expects of its operands. */
    ghost predicate Canonical()
      reads this
    {
      Trimmed(val) && (val == [0] ==> pos)
    }

    /** The number represented. */
    ghost function ToInt(): int
      reads this
    {
      if pos then Value(val) else -Value(val)
    }

    // -------------------------------------------------------------- correction

    /** truncateToBase: carry every digit's excess upwards. */
    method TruncateToBase()
      requires Correctable(val)
      modifies `val
      ensures Within(val, UPPER_BOUND) && Value(val) == Value(old(val)) && |old(val)| <= |val|
      ensures old(val) == [0] ==> val == [0]
    {
      var i := 0;
      while i < |val|
        invariant |old(val)| <= |val| <= |old(val)| + 1 && i <= |val| && Value(val) == Value(old(val))
        invariant |val| > |old(val)| ==> i >= |old(val)| && -2 <= val[|old(val)|] <= 2
        invariant forall j :: 0 <= j < i ==> -UPPER_BOUND <= val[j] <= UPPER_BOUND
        invariant i < |val| ==> var most := if i == |val| - 1 then 0x7FFF_FFFF else 2 * UPPER_BOUND + 1;
          -most <= val[i] <= most
        invariant forall j :: i < j < |val| ==>
          var most := if j == |val| - 1 then 0x7FFF_FFFE else 2 * UPPER_BOUND; -most <= val[j] <= most
        invariant old(val) == [0] ==> val == [0]
        decreases |old(val)| + 1 - i
      {
        if val[i] >= BASE || val[i] <= -BASE {
          var quot := QuotBase(val[i] as int) as int32;
          var rem := val[i] - BASE * quot;
          CarryOver(val, i, rem, quot);
          val := val[i := rem];
          if i + 1 >= |val| {
            val := val + [quot];
          } else {
            val := val[i + 1 := val[i + 1] + quot];
          }
        }
        i := i + 1;
      }
    }

    /** The borrow of equalizeSigns at digit i, whose sign is opposite to d: search the zeros above
        for a digit, take one from it, and turn the zeros into nines. */
    method BorrowFrom(i: nat, d: int32)
      requires i < |val| && Within(val, UPPER_BOUND) && (d == 1 || d == -1) && OfSign(val, i + 1, d)
      requires !SignOf(val[i], d)
      requires SomeNonZero(val, i + 1)
      modifies `val
      ensures |val| == |old(val)| && Within(val, UPPER_BOUND) && OfSign(val, i, d)
      ensures SomeNonZero(val, i)
      ensures Value(val) == Value(old(val))
    {
      var k, index := 0, i + 1;
      while index < |val| && val[index] == 0
        invariant index == i + 1 + k <= |val|
        invariant forall j :: i < j < index ==> val[j] == 0
        decreases |val| - index
      {
        k, index := k + 1, index + 1;
      }
      // the guard the source has commented out holds: a digit of sign d was found
      assert index < |val| && (if d == 1 then val[index] > 0 else val[index] < 0);
      ghost var zeros := k;
      val := val[index := val[index] - d];
      val := val[i := val[i] + d * BASE];
      ghost var before := val;
      while k > 0
        invariant 0 <= k <= zeros && |val| == |before|
        invariant forall j :: 0 <= j < |val| ==>
          val[j] == if i + k < j <= i + zeros then d * UPPER_BOUND else before[j]
        decreases k
      {
        val := val[i + k := d * UPPER_BOUND];
        k := k - 1;
      }
      BorrowKeepsValue(old(val), val, i, zeros, d);
    }

    /** equalizeSigns: give all digits the sign of the leading one. */
    method EqualizeSigns() returns (isPositive: bool)
      requires Within(val, UPPER_BOUND)
      modifies `val
      ensures |val| == |old(val)| && Value(val) == Value(old(val))
      ensures OfSign(val, 0, if isPositive then 1 else -1)
      ensures !isPositive ==> Value(val) < 0
    {
      isPositive := true;
      var i := |val| - 1;
      while i >= 0 && val[i] == 0
        invariant -1 <= i < |val| && forall j :: i < j < |val| ==> val[j] == 0
        decreases i
      {
        i := i - 1;
      }
      if i < 0 { return; }
      isPositive := val[i] > 0;
      i := i - 1;
      if isPositive {
        while i >= 0
          invariant -1 <= i < |val| - 1 && |val| == |old(val)| && Value(val) == Value(old(val))
          invariant Within(val, UPPER_BOUND) && OfSign(val, i + 1, 1) && SomeNonZero(val, i + 1)
          decreases i
        {
          if val[i] < 0 { BorrowFrom(i, 1); }
          i := i - 1;
        }
      } else {
        while i >= 0
          invariant -1 <= i < |val| - 1 && |val| == |old(val)| && Value(val) == Value(old(val))
          invariant Within(val, UPPER_BOUND) && OfSign(val, i + 1, -1) && SomeNonZero(val, i + 1)
          decreases i
        {
          if val[i] > 0 { BorrowFrom(i, -1); }
          i := i - 1;
        }
        NegativeValue(val);
      }
    }

    /** The loop of correct that drops the digits' signs. */
    method TakeAbsolute()
      requires OfSign(val, 0, -1)
      modifies `val
      ensures |val| == |old(val)| && Proper(val) && Value(val) == -Value(old(val))
    {
      var i := 0;
      while i < |val|
        invariant i <= |val| == |old(val)|
        invariant forall j :: 0 <= j < |val| ==> val[j] == if j < i then -old(val)[j] else old(val)[j]
      {
        val := val[i := if val[i] < 0 then -val[i] else val[i]];
        i := i + 1;
      }
      NegatedDigits(old(val), val);
    }

    /** removeLeadingZeros. */
    method RemoveLeadingZeros()
      requires |val| >= 1
      modifies `val
      ensures 1 <= |val| <= |old(val)| && val == old(val)[..|val|]
      ensures |val| > 1 ==> val[|val| - 1] != 0
      ensures Value(val) == Value(old(val))
    {
      var i := |val| - 1;
      while i > 0
        invariant 0 <= i == |val| - 1 && |val| <= |old(val)| && val == old(val)[..|val|]
        invariant Value(val) == Value(old(val))
        decreases i
      {
        if val[i] != 0 { return; }
        assert val == val[..i] + [0] && val[..i] + val[i + 1..] == val[..i];
        ValueAppendZero(val[..i]);
        val := val[..i] + val[i + 1..];
        i := i - 1;
      }
    }

    /** correct, for a vector whose digits carry the sign: the state after an addition. */
    method Correct()
      requires Correctable(val)
      modifies this
      ensures Canonical() && ToInt() == Value(old(val))
    {
      CorrectWith(false, false);
      if val == [0] { assert Value(val[1..]) == 0; }
    }

    /** correct(justCheckLeadingZeros, hasValidSign). */
    method CorrectWith(justCheckLeadingZeros: bool, hasValidSign: bool)
      requires |val| >= 1 && if justCheckLeadingZeros then Proper(val) else Correctable(val)
      modifies this
      ensures Trimmed(val)
      ensures justCheckLeadingZeros ==> pos == old(pos) && Value(val) == Value(old(val)) && val <= old(val)
      ensures !justCheckLeadingZeros && !hasValidSign ==>
        ToInt() == Value(old(val)) && (pos <==> Value(old(val)) >= 0)
      ensures !justCheckLeadingZeros && hasValidSign ==>
        ToInt() == (if old(pos) then Value(old(val)) else -Value(old(val))) && (old(val) == [0] ==> pos)
    {
      if !justCheckLeadingZeros {
        TruncateToBase();
        var isPositive := EqualizeSigns();
        if isPositive {
          NonNegativeValue(val);
          if |val| == 1 && val[0] == 0 { ZeroDigits(val); }
          pos := if (|val| == 1 && val[0] == 0) || !hasValidSign then true else pos;
        } else {
          pos := if hasValidSign then !pos else false;
          TakeAbsolute();
        }
      }
      RemoveLeadingZeros();
    }

    // -------------------------------------------------------------- construction

    constructor ()
      ensures val == [0] && pos
      ensures Canonical() && ToInt() == 0
    {
      val, pos := [0], true;
      new;
      assert Value(val[1..]) == 0;
    }

    /** InfInt(int). */
    constructor FromInt(l: int32)
      ensures Canonical() && ToInt() == l as int
    {
      pos := l >= 0;
      val := [];
      new;
      var subtractOne := l == -0x8000_0000;
      var rest := if subtractOne then l + 1 else l;
      if !pos { rest := -rest; }
      ghost var magnitude := rest as int;
      var more := true;
      while more
        invariant 0 <= rest && (more ==> val == [] || rest > 0) && (!more ==> rest == 0 && |val| >= 1)
        invariant Proper(val) && ValueOnto(val, rest as int) == magnitude && pos == (l >= 0)
        invariant rest == 0 && |val| > 1 ==> val[|val| - 1] != 0
        invariant rest == 0 && |val| == 1 && val[0] == 0 ==> magnitude == 0
        decreases rest, more
      {
        var quot := QuotBase(rest as int) as int32;
        var rem := rest - BASE * quot;
        OntoAppend(val, rem, quot as int);
        val := val + [rem];
        rest := quot;
        if rest == 0 { OntoNothing(val); }
        more := rest > 0;
      }
      OntoNothing(val);
      if subtractOne { Decrement(); }
    }

    /** The copy constructor and operator=. */
    constructor Copy(l: InfInt)
      ensures val == l.val && pos == l.pos
    {
      val, pos := l.val, l.pos;
    }

    /** operator=. */
    method Assign(l: InfInt)
      modifies this
      ensures val == old(l.val) && pos == old(l.pos)
    {
      val, pos := l.val, l.pos;
    }

    // -------------------------------------------------------------- addition

    /** operator++. */
    method Increment()
      requires Canonical()
      modifies this
      ensures Canonical() && ToInt() == old(ToInt()) + 1
    {
      Nudge(if pos then 1 else -1);
    }

    /** operator--. */
    method Decrement()
      requires Canonical()
      modifies this
      ensures Canonical() && ToInt() == old(ToInt()) - 1
    {
      Nudge(if pos then -1 else 1);
    }

    /** The common body of operator++ and operator--: the digit changes, the sign is kept. */
    method Nudge(step: int32)
      requires Canonical() && -1 <= step <= 1
      modifies this
      ensures Canonical() && ToInt() == old(ToInt()) + (if old(pos) then step as int else -(step as int))
    {
      ghost var before := val;
      val := val[0 := val[0] + step];
      assert val[1..] == before[1..];
      assert Value(val) == Value(before) + step as int;
      if |before| > 1 { OneDigitAtMost(before); } else { assert Value(before[1..]) == 0; }
      CorrectWith(false, true);
      ZeroIsOneDigit(val);
    }

    /** operator+. */
    method Plus(rhs: InfInt) returns (result: InfInt)
      requires Canonical() && rhs.Canonical()
      ensures fresh(result) && result.Canonical() && result.ToInt() == ToInt() + rhs.ToInt()
    {
      result := new InfInt();
      result.val := seq(if |val| > |rhs.val| then |val| else |rhs.val|, _ => 0);
      var i := 0;
      while i < |val| || i < |rhs.val|
        invariant i <= |result.val| == if |val| > |rhs.val| then |val| else |rhs.val|
        invariant forall j :: 0 <= j < i ==> result.val[j] == Signed(val, pos, j) + Signed(rhs.val, rhs.pos, j)
        decreases |result.val| - i
      {
        result.val := result.val[i := Signed(val, pos, i) + Signed(rhs.val, rhs.pos, i)];
        i := i + 1;
      }
      AddedDigits(val, pos, rhs.val, rhs.pos, result.val);
      result.Correct();
    }

    /** operator-. */
    method Minus(rhs: InfInt) returns (result: InfInt)
      requires Canonical() && rhs.Canonical()
      ensures fresh(result) && result.Canonical() && result.ToInt() == ToInt() - rhs.ToInt()
    {
      result := new InfInt();
      result.val := seq(if |val| > |rhs.val| then |val| else |rhs.val|, _ => 0);
      var i := 0;
      while i < |val| || i < |rhs.val|
        invariant i <= |result.val| == if |val| > |rhs.val| then |val| else |rhs.val|
        invariant forall j :: 0 <= j < i ==> result.val[j] == Signed(val, pos, j) - Signed(rhs.val, rhs.pos, j)
        decreases |result.val| - i
      {
        result.val := result.val[i := Signed(val, pos, i) - Signed(rhs.val, rhs.pos, i)];
        i := i + 1;
      }
      AddedDigits(val, pos, rhs.val, !rhs.pos, result.val);
      result.Correct();
    }

    /** operator+=; x += x is allowed. */
    method PlusAssign(rhs: InfInt)
      requires Canonical() && rhs.Canonical()
      modifies this
      ensures Canonical() && ToInt() == old(ToInt() + rhs.ToInt())
    {
      ghost var a, b, bPos := val, rhs.val, rhs.pos;
      if |rhs.val| > |val| { val := val + seq(|rhs.val| - |val|, _ => 0); }
      var i := 0;
      while i < |val|
        invariant i <= |val| == if |a| > |b| then |a| else |b|
        invariant pos == old(pos) && rhs.pos == bPos && if rhs == this then a == b else rhs.val == b
        invariant forall j :: 0 <= j < i ==> val[j] == Signed(a, pos, j) + Signed(b, bPos, j)
        invariant forall j :: i <= j < |val| ==> val[j] == if j < |a| then a[j] else 0
      {
        var digit := if i >= |rhs.val| then 0 else if rhs.pos then rhs.val[i] else -rhs.val[i];
        val := val[i := (if pos then val[i] else -val[i]) + digit];
        i := i + 1;
      }
      AddedDigits(a, pos, b, bPos, val);
      Correct();
    }

    /** operator-=; x -= x is allowed. */
    method MinusAssign(rhs: InfInt)
      requires Canonical() && rhs.Canonical()
      modifies this
      ensures Canonical() && ToInt() == old(ToInt() - rhs.ToInt())
    {
      ghost var a, b, bPos := val, rhs.val, rhs.pos;
      if |rhs.val| > |val| { val := val + seq(|rhs.val| - |val|, _ => 0); }
      var i := 0;
      while i < |val|
        invariant i <= |val| == if |a| > |b| then |a| else |b|
        invariant pos == old(pos) && rhs.pos == bPos && if rhs == this then a == b else rhs.val == b
        invariant forall j :: 0 <= j < i ==> val[j] == Signed(a, pos, j) - Signed(b, bPos, j)
        invariant forall j :: i <= j < |val| ==> val[j] == if j < |a| then a[j] else 0
      {
        var digit := if i >= |rhs.val| then 0 else if rhs.pos then rhs.val[i] else -rhs.val[i];
        val := val[i := (if pos then val[i] else -val[i]) - digit];
        i := i + 1;
      }
      AddedDigits(a, pos, b, !bPos, val);
      Correct();
    }

    /** Unary minus: it leaves the canonical numbers exactly on zero. */
    method Negated() returns (result: InfInt)
      requires Canonical()
      ensures fresh(result) && result.val == val && result.ToInt() == -ToInt()
      ensures result.Canonical() <==> ToInt() != 0
    {
      result := new InfInt.Copy(this);
      result.pos := !pos;
      ZeroIsOneDigit(val);
    }

    // -------------------------------------------------------------- order

    /** operator==: it compares representations, which for canonical numbers decides the integers. */
    method Equals(rhs: InfInt) returns (r: bool)
      ensures r <==> pos == rhs.pos && val == rhs.val
      ensures Canonical() && rhs.Canonical() ==> (r <==> ToInt() == rhs.ToInt())
    {
      if Canonical() && rhs.Canonical() { SameNumber(val, pos, rhs.val, rhs.pos); }
      if pos != rhs.pos || |val| != |rhs.val| { return false; }
      var i := |val| - 1;
      while i >= 0
        invariant -1 <= i < |val| && forall j :: i < j < |val| ==> val[j] == rhs.val[j]
      {
        if val[i] != rhs.val[i] { return false; }
        i := i - 1;
      }
      assert val == rhs.val;
      return true;
    }

    /** The scan shared by the four ordering operators: which magnitude is larger, from the leading
        digit down. */
    method CompareMagnitude(rhs: InfInt) returns (c: int)
      requires Canonical() && rhs.Canonical() && |val| == |rhs.val|
      ensures c < 0 <==> Value(val) < Value(rhs.val)
      ensures c > 0 <==> Value(val) > Value(rhs.val)
    {
      var i := |val| - 1;
      while i >= 0
        invariant -1 <= i < |val| && val[i + 1..] == rhs.val[i + 1..]
      {
        ValueUnfold(val, i);
        ValueUnfold(rhs.val, i);
        if val[i] < rhs.val[i] {
          HigherDecides(val, rhs.val, i);
          return -1;
        }
        if val[i] > rhs.val[i] {
          HigherDecides(rhs.val, val, i);
          return 1;
        }
        assert val[i..] == [val[i]] + val[i + 1..] && rhs.val[i..] == [val[i]] + rhs.val[i + 1..];
        i := i - 1;
      }
      assert val[0..] == val && rhs.val[0..] == rhs.val;
      return 0;
    }

    /** operator<. */
    method LessThan(rhs: InfInt) returns (r: bool)
      requires Canonical() && rhs.Canonical()
      ensures r <==> ToInt() < rhs.ToInt()
    {
      SignsDecide(val, pos, rhs.val, rhs.pos);
      if pos && !rhs.pos { return false; }
      if !pos && rhs.pos { return true; }
      if |val| > |rhs.val| { return !pos; }
      if |val| < |rhs.val| { return pos; }
      var c := CompareMagnitude(rhs);
      return if c < 0 then pos else if c > 0 then !pos else false;
    }

    /** operator<=. */
    method AtMost(rhs: InfInt) returns (r: bool)
      requires Canonical() && rhs.Canonical()
      ensures r <==> ToInt() <= rhs.ToInt()
    {
      SignsDecide(val, pos, rhs.val, rhs.pos);
      if pos && !rhs.pos { return false; }
      if !pos && rhs.pos { return true; }
      if |val| > |rhs.val| { return !pos; }
      if |val| < |rhs.val| { return pos; }
      var c := CompareMagnitude(rhs);
      return if c < 0 then pos else if c > 0 then !pos else true;
    }

    /** operator>. */
    method GreaterThan(rhs: InfInt) returns (r: bool)
      requires Canonical() && rhs.Canonical()
      ensures r <==> ToInt() > rhs.ToInt()
    {
      SignsDecide(val, pos, rhs.val, rhs.pos);
      if pos && !rhs.pos { return true; }
      if !pos && rhs.pos { return false; }
      if |val| > |rhs.val| { return pos; }
      if |val| < |rhs.val| { return !pos; }
      var c := CompareMagnitude(rhs);
      return if c < 0 then !pos else if c > 0 then pos else false;
    }

    // -------------------------------------------------------------- multiplication

    /** One digit of multiplyByDigit: what stays and what is carried. */
    static method MultiplyDigit(x: int32, factor: int32, carryIn: int32, ghost left: int, ghost rest: int)
      returns (digit: int32, carry: int32)
      requires 0 <= x < BASE && 0 <= factor && 0 <= carryIn && (carryIn < factor || carryIn == 0)
      requires left == x as int * factor as int + BASE as int * rest
      ensures 0 <= digit < BASE && 0 <= carry && (carry < factor || carry == 0)
      ensures carryIn as int + left == digit as int + BASE as int * (carry as int + rest)
    {
      ProductFits(x as int, factor as int, carryIn as int);
      var pval := x as int64 * factor as int64 + carryIn as int64;
      carry := 0;
      if pval >= BASE as int64 || pval <= -(BASE as int64) {
        var quot := QuotBase(pval as int);
        carry := quot as int32;
        pval := pval - BASE as int64 * quot as int64;
      }
      digit := pval as int32;
    }

    /** The loop of multiplyByDigit. */
    method MultiplyDigits(factor: int32) returns (carry: int32)
      requires Proper(val) && 0 <= factor
      modifies `val
      ensures Proper(val) && |val| == |old(val)| && 0 <= carry && (carry < factor || carry == 0)
      ensures ValueOnto(val, carry as int) == factor as int * Value(old(val))
    {
      carry := 0;
      var i := 0;
      ghost var digits, done, left := val, [], factor as int * Value(val);
      ghost var product := left;
      ValueFromStart(digits);
      while i < |val|
        invariant i <= |val| == |digits| && |done| == i && Proper(done) && 0 <= carry && (carry < factor || carry == 0)
        invariant forall j :: 0 <= j < |val| ==> val[j] == if j < i then done[j] else digits[j]
        invariant left == factor as int * ValueFrom(digits, i) && ValueOnto(done, carry as int + left) == product
      {
        ghost var rest := DigitWritten(digits, i, factor, left);
        var digit, more := MultiplyDigit(val[i], factor, carry, left, rest);
        OntoAppend(done, digit, more as int + rest);
        val := val[i := digit];
        carry, done, left := more, done + [digit], rest;
        i := i + 1;
      }
      assert val == done;
    }

    /** multiplyByDigit, on this number's vector. */
    method MultiplyByDigit(factor: int32)
      requires Proper(val) && |val| >= 1 && 0 <= factor
      modifies `val
      ensures Correctable(val) && Value(val) == Value(old(val)) * factor as int
    {
      var carry := MultiplyDigits(factor);
      if carry > 0 {
        CarryAppended(val, carry);
        val := val + [carry];
      } else {
        OntoNothing(val);
      }
    }

    /** operator*(ELEM_TYPE). */
    method TimesDigit(rhs: int32) returns (result: InfInt)
      requires Canonical() && rhs != -0x8000_0000
      ensures fresh(result) && result.Canonical() && result.ToInt() == ToInt() * rhs as int
    {
      result := new InfInt.Copy(this);
      var factor := if rhs < 0 then -rhs else rhs;
      result.MultiplyByDigit(factor);
      NonNegativeValue(val);
      SignedProduct(Value(val), factor as int, ToInt(), rhs as int);
      result.Correct();
      ZeroIsOneDigit(result.val);
      result.pos := if |result.val| == 1 && result.val[0] == 0 then true else pos == (rhs >= 0);
    }

    /** operator*=(ELEM_TYPE). */
    method TimesAssignDigit(rhs: int32)
      requires Canonical() && rhs != -0x8000_0000
      modifies this
      ensures Canonical() && ToInt() == old(ToInt()) * rhs as int
    {
      var factor := if rhs < 0 then -rhs else rhs;
      var oldPos := pos;
      NonNegativeValue(val);
      SignedProduct(Value(val), factor as int, ToInt(), rhs as int);
      MultiplyByDigit(factor);
      Correct();
      ZeroIsOneDigit(val);
      pos := if |val| == 1 && val[0] == 0 then true else oldPos == (rhs >= 0);
    }

    /** One column of operator*: split the carry, then add the column's products to the digit. */
    method AddColumn(a: seq<int32>, b: seq<int32>, digit: nat, carryIn: int64) returns (carry: int64, found: bool)
      requires Proper(a) && Proper(b) && Proper(val)
      requires 1 <= |a| && 1 <= |b| && digit < |a| + |b| == |val| < 0x8000_0000
      requires 0 <= carryIn as int <= (|a| + 1) * BASE as int
      modifies `val
      ensures |val| == |old(val)| && val == old(val)[digit := val[digit]] && Proper(val)
      ensures val[digit] as int + BASE as int * carry as int == carryIn as int + Column(a, b, digit)
      ensures 0 <= carry as int <= (|a| + 1) * BASE as int
      ensures found <==> digit < |a| + |b| - 1
    {
      carry := QuotBase(carryIn as int) as int64;
      val := val[digit := (carryIn - BASE as int64 * carry) as int32];
      found := false;
      var i := FirstRow(|b|, digit);
      ghost var first := i;
      while i < |a| && i <= digit
        invariant first <= i && (i <= |a| || i == first) && (found <==> i > first)
        invariant |val| == |old(val)| && val == old(val)[digit := val[digit]] && 0 <= val[digit] < BASE
        invariant 0 <= carry as int <= |a| + 1 + (i - first) * (BASE as int - 1)
        invariant val[digit] as int + BASE as int * carry as int + ColumnFrom(a, b, digit, i) ==
          carryIn as int + Column(a, b, digit)
      {
        DigitProduct(a[i] as int, b[digit - i] as int);
        var pval := val[digit] as int64 + a[i] as int64 * b[digit - i] as int64;
        if pval >= BASE as int64 || pval <= -(BASE as int64) {
          var quot := QuotBase(pval as int);
          carry := carry + quot as int64;
          pval := pval - BASE as int64 * quot as int64;
        }
        val := val[digit := pval as int32];
        found := true;
        i := i + 1;
      }
    }

    /** The columns of operator*: on exit everything is written down. */
    method AddColumns(a: seq<int32>, b: seq<int32>) returns (carry: int64)
      requires Proper(a) && Proper(b) && |a| >= 1 && |b| >= 1
      requires |val| == |a| + |b| < 0x8000_0000 && Proper(val)
      modifies `val
      ensures |val| == |a| + |b| && Proper(val) && carry >= 0
      ensures ValueOnto(val, carry as int) == Value(a) * Value(b)
    {
      carry := 0;
      var digit := 0;
      ColumnsMakeProduct(a, b);
      ghost var product := Value(a) * Value(b);
      while true
        invariant digit < |val| == |a| + |b| && Proper(val)
        invariant 0 <= carry as int <= (|a| + 1) * BASE as int
        invariant ValueOnto(val[..digit], carry as int + ColumnsFrom(a, b, digit)) == product
        decreases |a| + |b| - digit
      {
        var found;
        carry, found := NextColumn(a, b, digit, carry);
        if !found { break; }
        digit := digit + 1;
      }
      assert val[..digit + 1] == val;
    }

    /** One column more: the product is still that of the digits done, the carry and the columns to come. */
    method NextColumn(a: seq<int32>, b: seq<int32>, digit: nat, carryIn: int64) returns (carry: int64, found: bool)
      requires Proper(a) && Proper(b) && Proper(val) && 1 <= |a| && 1 <= |b|
      requires digit < |a| + |b| == |val| < 0x8000_0000 && 0 <= carryIn as int <= (|a| + 1) * BASE as int
      modifies `val
      ensures |val| == |old(val)| && Proper(val) && (found <==> digit < |a| + |b| - 1)
      ensures 0 <= carry as int <= (|a| + 1) * BASE as int
      ensures ValueOnto(val[..digit + 1], carry as int + ColumnsFrom(a, b, digit + 1)) ==
              ValueOnto(old(val)[..digit], carryIn as int + ColumnsFrom(a, b, digit))
    {
      ghost var done := val[..digit];
      carry, found := AddColumn(a, b, digit, carryIn);
      OntoAppend(done, val[digit], carry as int + ColumnsFrom(a, b, digit + 1));
      assert val[..digit + 1] == done + [val[digit]];
    }

    /** operator*: the schoolbook product, column by column. The bound is that of the source's
        indices; within it no carry leaves PRODUCT_TYPE. */
    method Times(rhs: InfInt) returns (result: InfInt)
      requires Canonical() && rhs.Canonical() && |val| + |rhs.val| < 0x8000_0000
      ensures fresh(result) && result.Canonical() && result.ToInt() == ToInt() * rhs.ToInt()
    {
      result := new InfInt();
      result.val := seq(|val| + |rhs.val|, _ => 0);
      var carry := result.AddColumns(val, rhs.val);
      // the source's loop over a remaining carry never runs
      NoCarryLeft(val, rhs.val, result.val, carry as int);
      NonNegativeValue(val);
      NonNegativeValue(rhs.val);
      SignedProduct(Value(val), Value(rhs.val), ToInt(), rhs.ToInt());
      result.Correct();
      ZeroIsOneDigit(result.val);
      result.pos := if |result.val| == 1 && result.val[0] == 0 then true else pos == rhs.pos;
    }

    // -------------------------------------------------------------- division

    /** dInR: binary search for the digit whose multiple of D still fits in R. */
    static method DInR(r: InfInt, d: InfInt) returns (digit: int32)
      requires r.Canonical() && d.Canonical() && 0 <= r.ToInt() < BASE as int * d.ToInt()
      ensures 0 <= digit <= UPPER_BOUND
      ensures d.ToInt() * digit as int <= r.ToInt() < d.ToInt() * (digit as int + 1)
    {
      var min: int32, max: int32 := 0, UPPER_BOUND;
      ghost var dividend, divisor, low, high := r.ToInt(), d.ToInt(), 0, BASE as int;
      while max > min
        invariant 0 <= min <= max <= UPPER_BOUND && min as int == low && max as int + 1 == high
        invariant divisor * low <= dividend < divisor * high
        decreases max - min
      {
        var avg := max + min;
        var quot := avg / 2;
        avg := if avg - 2 * quot != 0 then quot + 1 else quot;
        var prod := d.TimesDigit(avg);
        ghost var middle := avg as int;
        assert prod.ToInt() == divisor * middle;
        var same := r.Equals(prod);
        if same {
          FitsOnceMore(divisor, middle);
          return avg;
        }
        var larger := r.GreaterThan(prod);
        if larger {
          min, low := avg, middle;
        } else {
          max, high := avg - 1, middle;
        }
      }
      return min;
    }

    /** One round of long division, with this as the running remainder: bring down a digit, find how
        often d fits, take that away. */
    method BringDown(digit: int32, d: InfInt) returns (cnt: int32)
      requires Canonical() && d.Canonical() && 0 <= ToInt() < d.ToInt() && 0 <= digit < BASE
      modifies this
      ensures Canonical() && 0 <= ToInt() < d.ToInt() && 0 <= cnt < BASE
      ensures BASE as int * old(ToInt()) + digit as int == d.ToInt() * cnt as int + ToInt()
      ensures d.val == old(d.val) && d.pos == old(d.pos)
    {
      ghost var was := val;
      ghost var divisor := d.ToInt();
      ZeroIsOneDigit(val);
      val := [digit] + val;
      assert val[1..] == was;
      CorrectWith(true, false);
      ZeroIsOneDigit(val);
      cnt := DInR(this, d);
      var multiple := d.TimesDigit(cnt);
      MinusAssign(multiple);
      ZeroIsOneDigit(val);
      FitsOnceMore(divisor, cnt as int);
    }

    /** The magnitude of a number, as a new one: what both division operators start from. */
    method Magnitude() returns (m: InfInt)
      requires Canonical()
      ensures fresh(m) && m.Canonical() && m.val == val && m.pos && m.ToInt() == Abs(ToInt())
      ensures pos <==> ToInt() >= 0
    {
      ZeroIsOneDigit(val);
      if pos { m := new InfInt.Copy(this); } else { m := Negated(); }
    }

    /** Enter the next lower digit of a quotient. */
    method PlaceDigit(i: nat, cnt: int32, ghost above: seq<int32>, ghost d: int) returns (ghost q: seq<int32>)
      requires i < |val| && WrittenFrom(val, i + 1) && 0 <= cnt < BASE && UpperPart(val, i + 1, above)
      modifies `val
      ensures |val| == |old(val)| && WrittenFrom(val, i) && UpperPart(val, i, q)
      ensures Taken(d, q) == d * cnt as int + BASE as int * Taken(d, above)
    {
      q := [cnt] + above;
      assert q[1..] == above;
      val := val[i := val[i] + cnt];
    }

    /** The rounds of operator/, with this as the quotient; the result is the remainder. */
    method DivideInto(digits: seq<int32>, d: InfInt) returns (r: InfInt)
      requires d != this && Proper(digits) && d.Canonical() && d.ToInt() > 0
      requires |val| == |digits| && WrittenFrom(val, |val|)
      modifies `val
      ensures fresh(r) && Proper(val) && |val| == |digits|
      ensures Value(digits) == Taken(d.ToInt(), val) + r.ToInt() && 0 <= r.ToInt() < d.ToInt()
    {
      r := new InfInt();
      var i := |digits| - 1;
      ghost var divisor := d.ToInt();
      ghost var quotient := [];
      while i >= 0
        invariant -1 <= i < |digits| && |val| == |digits| && WrittenFrom(val, i + 1)
        invariant d.Canonical() && d.ToInt() == divisor && r.Canonical() && 0 <= r.ToInt() < divisor
        invariant UpperPart(val, i + 1, quotient)
        invariant ValueFrom(digits, i + 1) == Taken(divisor, quotient) + r.ToInt()
      {
        quotient := QuotientRound(digits, d, r, i, quotient);
        i := i - 1;
      }
      ValueFromStart(digits);
      WholePart(val, quotient);
    }

    /** One round of operator/, with this as the quotient. */
    method QuotientRound(digits: seq<int32>, d: InfInt, r: InfInt, i: nat, ghost above: seq<int32>)
      returns (ghost q: seq<int32>)
      requires d != this && r != this && d != r && Proper(digits) && d.Canonical() && r.Canonical()
      requires i < |digits| == |val| && WrittenFrom(val, i + 1) && UpperPart(val, i + 1, above)
      requires 0 <= r.ToInt() < d.ToInt() && ValueFrom(digits, i + 1) == Taken(d.ToInt(), above) + r.ToInt()
      modifies `val, r
      ensures |val| == |digits| && WrittenFrom(val, i) && UpperPart(val, i, q) && r.Canonical()
      ensures 0 <= r.ToInt() < d.ToInt() && ValueFrom(digits, i) == Taken(d.ToInt(), q) + r.ToInt()
    {
      var cnt := r.BringDown(digits[i], d);
      q := PlaceDigit(i, cnt, above, d.ToInt());
    }

    /** The rounds of operator%, with this as the remainder; the quotient's digits are ghost. */
    method DivideAway(n: InfInt, d: InfInt) returns (ghost quotient: seq<int32>)
      requires n != this && d != this && n.Canonical() && n.pos && d.Canonical() && d.pos && d.ToInt() > 0
      requires Canonical() && ToInt() == 0
      modifies this
      ensures Proper(quotient)
      ensures Canonical() && n.ToInt() == Taken(d.ToInt(), quotient) + ToInt() && 0 <= ToInt() < d.ToInt()
    {
      var i := |n.val| - 1;
      ghost var digits, divisor := n.val, d.ToInt();
      quotient := [];
      while i >= 0
        invariant -1 <= i < |digits| && n.val == digits && Proper(quotient)
        invariant d.Canonical() && d.ToInt() == divisor && Canonical() && 0 <= ToInt() < divisor
        invariant ValueFrom(digits, i + 1) == Taken(divisor, quotient) + ToInt()
      {
        ghost var above := quotient;
        var cnt := BringDown(n.val[i], d);
        quotient := [cnt] + above;
        assert quotient[1..] == above;
        i := i - 1;
      }
      ValueFromStart(digits);
    }

    /** operator/. */
    method DividedBy(rhs: InfInt) returns (q: InfInt)
      requires Canonical() && rhs.Canonical()
      ensures fresh(q) && q.Canonical()
      ensures q.ToInt() == if rhs.ToInt() == 0 then 0 else Quotient(ToInt(), rhs.ToInt())
    {
      var zero := new InfInt.FromInt(0);
      var byZero := rhs.Equals(zero);
      if byZero { return zero; }
      var d := rhs.Magnitude();
      var n := Magnitude();
      q := new InfInt();
      q.val := seq(|n.val|, _ => 0);
      var r := q.DivideInto(n.val, d);
      TakenIsMultiple(d.ToInt(), q.val);
      MagnitudesDivide(ToInt(), rhs.ToInt(), n.ToInt(), d.ToInt(), Value(q.val), r.ToInt());
      q.Correct();
      ZeroIsOneDigit(q.val);
      q.pos := if |q.val| == 1 && q.val[0] == 0 then true else pos == rhs.pos;
    }

    /** operator%. */
    method Modulo(rhs: InfInt) returns (r: InfInt)
      requires Canonical() && rhs.Canonical()
      ensures fresh(r) && r.Canonical()
      ensures r.ToInt() == if rhs.ToInt() == 0 then 0 else Remainder(ToInt(), rhs.ToInt())
    {
      var zero := new InfInt.FromInt(0);
      var byZero := rhs.Equals(zero);
      if byZero { return zero; }
      var d := rhs.Magnitude();
      var n := Magnitude();
      r := new InfInt();
      ghost var quotient := r.DivideAway(n, d);
      TakenIsMultiple(d.ToInt(), quotient);
      MagnitudesDivide(ToInt(), rhs.ToInt(), n.ToInt(), d.ToInt(), Value(quotient), r.ToInt());
      ZeroIsOneDigit(r.val);
      r.Correct();
      ZeroIsOneDigit(r.val);
      r.pos := if |r.val| == 1 && r.val[0] == 0 then true else pos;
    }

    // -------------------------------------------------------------- square root

    /** numberOfDigits. */
    method NumberOfDigits() returns (n: nat)
      requires Canonical()
      ensures n >= 1 && Abs(ToInt()) < Pow10(n) && (ToInt() != 0 ==> Pow10(n - 1) <= Abs(ToInt()))
    {
      DigitCountIsExact(val);
      ZeroIsOneDigit(val);
      n := DigitCount(val);
    }

    /** The power of ten below the root that optimizeSqrtSearchBounds counts up to. */
    method PowerBelowRoot() returns (hdn: InfInt)
      requires Canonical() && ToInt() >= 1
      ensures fresh(hdn) && hdn.Canonical() && hdn.ToInt() >= 1 && SearchBounds(ToInt(), hdn.ToInt())
    {
      hdn := new InfInt.FromInt(1);
      var digits := NumberOfDigits();
      var i := digits / 2;
      ghost var k := if i >= 1 then i - 1 else 0;
      ghost var e: nat := 0;
      while i >= 2
        invariant hdn.Canonical() && hdn.ToInt() == Pow10(e) && e == k - (if i >= 1 then i - 1 else 0)
        decreases i
      {
        hdn.TimesAssignDigit(10);
        i, e := i - 1, e + 1;
      }
      RootBounds(ToInt(), digits, k);
    }

    /** optimizeSqrtSearchBounds: powers of ten around the root. */
    method OptimizeSqrtSearchBounds(lo: InfInt, hi: InfInt) returns (ghost power: nat)
      requires Canonical() && lo.Canonical() && hi.Canonical() && lo != hi && this != lo && this != hi
      requires ToInt() >= 1
      modifies lo, hi
      ensures SearchBounds(old(ToInt()), power)
      ensures lo.Canonical() && lo.ToInt() == if old(lo.ToInt()) < power then power else old(lo.ToInt())
      ensures hi.Canonical() && hi.ToInt() == if old(hi.ToInt()) > 100 * power then 100 * power else old(hi.ToInt())
    {
      var hdn := PowerBelowRoot();
      power := hdn.ToInt();
      var raise := lo.LessThan(hdn);
      if raise { lo.Assign(hdn); }
      hdn.TimesAssignDigit(100);
      var lower := hi.GreaterThan(hdn);
      if lower { hi.Assign(hdn); }
    }

    lemma NoLonger(rhs: InfInt)
      requires Canonical() && rhs.Canonical() && 0 <= ToInt() <= rhs.ToInt()
      ensures |val| <= |rhs.val|
    {
      SignsDecide(val, pos, rhs.val, rhs.pos);
    }

    /** Half the sum of the bounds. */
    method Middle(hi: InfInt) returns (mid: InfInt)
      requires Canonical() && hi.Canonical() && 0 <= ToInt() <= hi.ToInt()
      ensures fresh(mid) && mid.Canonical() && ToInt() <= mid.ToInt() <= hi.ToInt()
      ensures Halfway(mid.ToInt(), ToInt(), hi.ToInt())
    {
      var two := new InfInt.FromInt(2);
      var sum := hi.Plus(this);
      mid := sum.DividedBy(two);
      HalfwayBetween(ToInt(), hi.ToInt(), mid.ToInt());
    }

    /** One probe of intSqrt: the middle of the bounds, and how its square compares. */
    method Probe(lo: InfInt, hi: InfInt) returns (mid: InfInt, exact: bool, below: bool)
      requires Canonical() && 2 * |val| < 0x8000_0000 && lo.Canonical() && hi.Canonical()
      requires Bracket(ToInt(), lo.ToInt(), hi.ToInt())
      ensures fresh(mid) && mid.Canonical() && lo.ToInt() <= mid.ToInt() && Halfway(mid.ToInt(), lo.ToInt(), hi.ToInt())
      ensures exact <==> Square(mid.ToInt()) == ToInt()
      ensures below <==> Square(mid.ToInt()) < ToInt()
    {
      mid := lo.Middle(hi);
      mid.NoLonger(this);
      var mid2 := mid.Times(mid);
      SquareIsProduct(mid.ToInt(), mid2.ToInt());
      exact := mid2.Equals(this);
      below := mid2.LessThan(this);
    }

    /** The loop condition of intSqrt. */
    method MoreThanOneBelow(hi: InfInt) returns (apart: bool)
      requires Canonical() && hi.Canonical()
      ensures apart <==> ToInt() < hi.ToInt() - 1
    {
      var one := new InfInt.FromInt(1);
      var last := hi.Minus(one);
      apart := LessThan(last);
    }

    /** The bisection of intSqrt. */
    method Bisect(low: InfInt, high: InfInt) returns (s: InfInt)
      requires Canonical() && 2 * |val| < 0x8000_0000 && low.Canonical() && high.Canonical()
      requires Bracket(ToInt(), low.ToInt(), high.ToInt())
      ensures s == low || fresh(s)
      ensures s.Canonical() && RootBySquares(ToInt(), s.ToInt())
    {
      var lo, hi := low, high;
      ghost var n := ToInt();
      while true
        invariant lo.Canonical() && hi.Canonical() && (lo == low || fresh(lo)) && ToInt() == n
        invariant Bracket(n, lo.ToInt(), hi.ToInt())
        decreases hi.ToInt() - lo.ToInt()
      {
        var mid, exact, below := Probe(lo, hi);
        StrictBracket(n, lo.ToInt(), hi.ToInt(), mid.ToInt());
        if exact { return mid; }
        if below { lo := mid; } else { hi := mid; }
        var apart := lo.MoreThanOneBelow(hi);
        if !apart {
          ClosedBracket(n, lo.ToInt(), hi.ToInt());
          return lo;
        }
      }
    }

    /** intSqrt. The bound lets every probe be squared within the source's indices. */
    method IntSqrt() returns (s: InfInt)
      requires Canonical() && 2 * |val| < 0x8000_0000
      ensures fresh(s) && s.Canonical()
      ensures ToInt() <= 0 ==> s.ToInt() == 0
      ensures ToInt() > 0 ==> s.ToInt() > 0 && IsRoot(ToInt(), s.ToInt())
    {
      var zero := new InfInt.FromInt(0);
      var notPositive := AtMost(zero);
      if notPositive { return zero; }
      var one := new InfInt.FromInt(1);
      var two := new InfInt.FromInt(2);
      var half := DividedBy(two);
      var hi := half.Plus(one);
      var lo := new InfInt.FromInt(0);
      StartBracket(ToInt(), hi.ToInt());
      ghost var h := hi.ToInt();
      ghost var power := OptimizeSqrtSearchBounds(lo, hi);
      BracketFound(ToInt(), h, power);
      s := Bisect(lo, hi);
      RootFound(ToInt(), s.ToInt());
    }

    // -------------------------------------------------------------- text

    /** The loop of fromString: pieces of nine digits, from the right. */
    method ReadPieces(s: string) returns (i: int)
      requires Numeral(s) && val == []
      modifies `val
      ensures -9 <= i < 0 && (i + 9 - |s|) % 9 == 0 && i + 9 <= |s| && (i < |s| - 9 ==> |val| >= 1)
      ensures i > -9 ==> Proper(val) && ReadSoFar(s, i + 9, val)
      ensures i == -9 ==> HeadPushed(s, val)
    {
      i := |s| - 9;
      assert s[..|s|] == s;
      while i >= 0
        invariant -9 <= i <= |s| - 9 && (i + 9 - |s|) % 9 == 0 && (i < |s| - 9 ==> |val| >= 1)
        invariant i > -9 ==> Proper(val) && ReadSoFar(s, i + 9, val)
        invariant i == -9 ==> HeadPushed(s, val)
      {
        PiecePushed(s, i, val);
        val := val + [Atoi(s[i..i + 9]) as int32];
        i := i - 9;
      }
    }

    /** The end of fromString: the sign atoi has left on the leading piece. */
    method SettleSign(s: string)
      requires Numeral(s) && pos && HeadPushed(s, val)
      modifies this
      ensures |val| >= 1 && Proper(val) && Value(val) == Reading(Unsigned(s))
      ensures pos <==> s[0] != '-' || Reading(Unsigned(s[..HeadLength(s)])) == 0
    {
      HeadSettled(s, val);
      if val[|val| - 1] < 0 {
        val := val[|val| - 1 := -val[|val| - 1]];
        pos := false;
      }
    }

    /** The part of fromString after its loop: a shorter leading piece, if there is one, and the sign. */
    method ReadHead(s: string, i: int)
      requires Numeral(s) && pos
      requires -9 <= i < 0 && (i + 9 - |s|) % 9 == 0 && i + 9 <= |s| && (i < |s| - 9 ==> |val| >= 1)
      requires if i > -9 then Proper(val) && ReadSoFar(s, i + 9, val) else HeadPushed(s, val)
      modifies this
      ensures |val| >= 1 && Proper(val) && Value(val) == Reading(Unsigned(s))
      ensures pos <==> s[0] != '-' || LosesSign(s)
    {
      SignRead(s);
      if i > -9 {
        var ss := s[..i + 9];
        ShortHead(s, i + 9);
        if ss == "-" {
          pos := false;
          OntoNothing(val);
        } else {
          ShortHeadPushed(s, i + 9, val);
          val := val + [Atoi(ss) as int32];
          SettleSign(s);
        }
      } else {
        SettleSign(s);
      }
    }

    /** fromString, on numerals. The magnitude is always right; the sign is lost exactly when the leading
        piece of a negative numeral is all zeros; and a negative zero comes out exactly when a zero is written
        with a minus sign that is the leading piece by itself. */
    constructor FromString(s: string)
      requires Numeral(s) && |s| < 0x8000_0000
      ensures Trimmed(val) && Value(val) == Reading(Unsigned(s)) && (pos <==> s[0] != '-' || LosesSign(s))
      ensures ToInt() == Number(s) <==> !LosesSign(s) || Number(s) == 0
      ensures Canonical() <==> !NegativeZero(s)
    {
      pos, val := true, [];
      new;
      var i := ReadPieces(s);
      ReadHead(s, i);
      CorrectWith(true, false);
      ZeroIsOneDigit(val);
      NegativeZeroKeepsSign(s);
    }

    /** Reading a minus sign and nine zeros: the result stands for 0, and is not equal to 0. */
    static method ReadNegativeZero() returns (z: InfInt, equal: bool)
      ensures z.ToInt() == 0 && z.val == [0] && !z.pos && !z.Canonical() && !equal
    {
      NineZerosAreNegative();
      z := new InfInt.FromString("-000000000");
      ZeroIsOneDigit(z.val);
      var zero := new InfInt();
      equal := z.Equals(zero);
    }

    /** The digits operator<< prints: the leading one plain, the others filled to nine places. */
    method DigitsToString() returns (s: string)
      requires Canonical()
      ensures 1 <= |s| <= 9 * |val| && Reads(s, Value(val)) && (s[0] == '0' ==> val == [0])
    {
      s := "";
      var first := true;
      var i := |val| - 1;
      while i >= 0
        invariant -1 <= i < |val| && (first <==> i == |val| - 1) && (first <==> s == "")
        invariant |s| <= 9 * (|val| - 1 - i) && Reads(s, ValueFrom(val, i + 1))
        invariant !first ==> (s[0] == '0' ==> val == [0])
      {
        s := AppendPiece(i, s, first);
        first := false;
        i := i - 1;
      }
      ValueFromStart(val);
    }

    /** One digit of the vector as text. */
    method AppendPiece(i: nat, s: string, first: bool) returns (t: string)
      requires i < |val| && Proper(val) && Reads(s, ValueFrom(val, i + 1)) && (first <==> s == "")
      ensures 1 <= |t| <= |s| + 9 && Reads(t, ValueFrom(val, i))
      ensures t[0] == '0' ==> if first then val[i] == 0 else s[0] == '0'
    {
      PiecePrinted(s, val[i], ValueFrom(val, i + 1));
      t := s + if first then Shown(val[i] as int) else Padded(val[i]);
    }

    /** operator<<. */
    method ToString() returns (s: string)
      requires Canonical()
      ensures Numeral(s) && Number(s) == ToInt() && |s| <= 9 * |val| + 1
      ensures !LosesSign(s) && (s[0] == '-' <==> !pos)
    {
      var digits := DigitsToString();
      ZeroIsOneDigit(val);
      s := if pos then digits else "-" + digits;
      assert !pos ==> s[1..] == digits;
    }

    /** fromString undoes operator<<. */
    method Reparsed() returns (y: InfInt)
      requires Canonical() && 9 * |val| + 1 < 0x8000_0000
      ensures fresh(y) && y.val == val && y.pos == pos
    {
      var s := ToString();
      y := new InfInt.FromString(s);
      ZeroIsOneDigit(val);
      ZeroIsOneDigit(y.val);
      UniqueTrimmed(val, y.val);
    }
  }

  /** The digit at position i with the number's sign, or 0 beyond the leading one. */
  function Signed(s: seq<int32>, pos: bool, i: nat): (x: int32)
    requires Proper(s)
    ensures -UPPER_BOUND <= x <= UPPER_BOUND
  {
    if i >= |s| then 0 else if pos then s[i] else -s[i]
  }

  /** Adding digit by digit, with signs, adds the numbers. */
  lemma {:induction false} AddedDigits(a: seq<int32>, aPos: bool, b: seq<int32>, bPos: bool, c: seq<int32>)
    requires Proper(a) && Proper(b) && |c| == if |a| > |b| then |a| else |b|
    requires forall j :: 0 <= j < |c| ==> c[j] as int == Signed(a, aPos, j) as int + Signed(b, bPos, j) as int
    ensures Value(c) == (if aPos then Value(a) else -Value(a)) + (if bPos then Value(b) else -Value(b))
  {
    if c != [] {
      var a', b' := if a == [] then [] else a[1..], if b == [] then [] else b[1..];
      forall j | 0 <= j < |c| - 1
        ensures c[1..][j] as int == Signed(a', aPos, j) as int + Signed(b', bPos, j) as int
      {
        assert Signed(a', aPos, j) == Signed(a, aPos, j + 1) && Signed(b', bPos, j) == Signed(b, bPos, j + 1);
      }
      AddedDigits(a', aPos, b', bPos, c[1..]);
      assert c[0] as int == Signed(a, aPos, 0) as int + Signed(b, bPos, 0) as int;
    }
  }

  /** A trimmed number of two digits or more is at least the base. */
  lemma OneDigitAtMost(s: seq<int32>)
    requires Trimmed(s) && |s| > 1
    ensures Value(s) >= BASE as int
  {
    LeadingDigit(s[1..]);
  }

  lemma ZeroIsOneDigit(s: seq<int32>)
    requires Trimmed(s)
    ensures s == [0] <==> Value(s) == 0
    ensures Value(s) >= 0
  {
    if |s| > 1 { OneDigitAtMost(s); } else { assert s[1..] == []; }
  }

  lemma SameNumber(a: seq<int32>, aPos: bool, b: seq<int32>, bPos: bool)
    requires Trimmed(a) && (a == [0] ==> aPos) && Trimmed(b) && (b == [0] ==> bPos)
    ensures (if aPos then Value(a) else -Value(a)) == (if bPos then Value(b) else -Value(b)) ==> a == b && aPos == bPos
  {
    ZeroIsOneDigit(a);
    ZeroIsOneDigit(b);
    if Value(a) == Value(b) { UniqueTrimmed(a, b); }
  }

  /** What the signs and the lengths say about the order. */
  lemma SignsDecide(a: seq<int32>, aPos: bool, b: seq<int32>, bPos: bool)
    requires Trimmed(a) && (a == [0] ==> aPos) && Trimmed(b) && (b == [0] ==> bPos)
    ensures !aPos ==> Value(a) > 0
    ensures !bPos ==> Value(b) > 0
    ensures Value(a) >= 0 && Value(b) >= 0
    ensures |a| < |b| ==> Value(a) < Value(b)
    ensures |b| < |a| ==> Value(b) < Value(a)
  {
    ZeroIsOneDigit(a);
    ZeroIsOneDigit(b);
    if |a| < |b| { LongerIsLarger(a, b); }
    if |b| < |a| { LongerIsLarger(b, a); }
  }

  // ---------------------------------------------------------------- products

  lemma ProductFits(x: int, f: int, c: int)
    requires 0 <= x < BASE as int && 0 <= f < 0x8000_0000 && 0 <= c && (c < f || c == 0)
    ensures 0 <= x * f + c < 0x2000_0000_0000_0000
    ensures x * f + c < BASE as int * f || (f == 0 && x * f + c == 0)
  {
    ProductAtMost(x, f, 999_999_999, f);
    assert 0 <= x * f <= 999_999_999 * f;
  }

  lemma DigitProduct(x: int, y: int)
    requires 0 <= x < BASE as int && 0 <= y < BASE as int
    ensures 0 <= x * y <= 999999998000000001
  {
    ProductAtMost(x, y, 999999999, y);
    assert 999999999 * y <= 999999998000000001;
  }

  lemma CarryAppended(s: seq<int32>, carry: int32)
    ensures Value(s + [carry]) == ValueOnto(s, carry as int)
  {
    OntoAppend(s, carry, 0);
    OntoNothing(s + [carry]);
  }

  /** What is left of the product after digit i. */
  lemma DigitWritten(digits: seq<int32>, i: nat, factor: int32, left: int) returns (rest: int)
    requires i < |digits| && left == factor as int * ValueFrom(digits, i)
    ensures rest == factor as int * ValueFrom(digits, i + 1)
    ensures left == digits[i] as int * factor as int + BASE as int * rest
  {
    rest := factor as int * ValueFrom(digits, i + 1);
    DigitTimes(factor as int, digits[i] as int, ValueFrom(digits, i + 1));
  }

  // ---------------------------------------------------------------- quotients

  /** The quotient's digits below position i are still to come. */
  predicate WrittenFrom(s: seq<int32>, i: int) { Proper(s) && forall j :: 0 <= j < |s| && j < i ==> s[j] == 0 }

  lemma FitsOnceMore(d: int, c: int)
    ensures d * (c + 1) == d * c + d
  {}

  ghost predicate UpperPart(s: seq<int32>, i: nat, t: seq<int32>) {
    |t| == |s| - i && forall j :: i <= j < |s| ==> s[j] == t[j - i]
  }

  lemma WholePart(s: seq<int32>, t: seq<int32>)
    requires UpperPart(s, 0, t)
    ensures s == t
  {}

  /** What long division has taken away when its quotient has the given digits. */
  ghost function Taken(d: int, q: seq<int32>): int {
    if q == [] then 0 else d * q[0] as int + BASE as int * Taken(d, q[1..])
  }

  lemma {:induction false} TakenIsMultiple(d: int, q: seq<int32>)
    requires Proper(q)
    ensures Taken(d, q) == d * Value(q)
  {
    if q != [] {
      TakenIsMultiple(d, q[1..]);
      DigitTimes(d, q[0] as int, Value(q[1..]));
    }
  }

  // ---------------------------------------------------------------- square roots

  /** s is the integer square root of n. */
  ghost predicate IsRoot(n: int, s: int) { s * s <= n < (s + 1) * (s + 1) }

  /** x squared, as a sum of odd numbers. */
  ghost function Square(x: nat): nat { if x == 0 then 0 else Square(x - 1) + 2 * x - 1 }

  ghost predicate RootBySquares(n: int, s: int) { s >= 1 && Square(s) <= n < Square(s + 1) }

  /** What bisection keeps; for n = 1 both bounds are the root from the start. */
  ghost predicate Bracket(n: int, lo: int, hi: int) {
    1 <= lo <= hi <= n && Square(lo) <= n && if n == 1 then hi == 1 else n < Square(hi)
  }

  ghost predicate SearchBounds(n: int, power: nat) { power >= 1 && Square(power) <= n < Square(100 * power) }

  lemma {:induction false} SquareIs(x: nat)
    ensures Square(x) == x * x
  {
    if x > 0 { SquareIs(x - 1); }
  }

  lemma SquareIsProduct(x: nat, p: int)
    ensures p == x * x ==> p == Square(x)
  {
    SquareIs(x);
  }

  lemma {:induction false} SquaresGrow(x: nat, y: nat)
    requires x <= y
    ensures Square(x) <= Square(y)
    decreases y
  {
    if x < y { SquaresGrow(x, y - 1); }
  }

  lemma RootFound(n: int, s: int)
    requires RootBySquares(n, s)
    ensures IsRoot(n, s)
  {
    SquareIs(s);
    SquareIs(s + 1);
  }

  /** Below the middle of n's decimal digits a power of ten is at most the root, two places above it
      exceeds it. */
  lemma RootBounds(n: int, digits: nat, k: nat)
    requires digits >= 1 && Pow10(digits - 1) <= n < Pow10(digits)
    requires k == if digits / 2 >= 1 then digits / 2 - 1 else 0
    ensures SearchBounds(n, Pow10(k))
  {
    Pow10Sum(k, k);
    Pow10Sum(k + 2, k + 2);
    Pow10Grows(2 * k, digits - 1);
    Pow10Grows(digits, 2 * k + 4);
    SquareIs(Pow10(k));
    SquareIs(Pow10(k + 2));
    assert Pow10(k + 2) == 10 * Pow10(k + 1);
  }

  lemma StartBracket(n: int, hi: int)
    requires n >= 1 && hi == Quotient(n, 2) + 1
    ensures 1 <= hi <= n && if n == 1 then hi == 1 else n < Square(hi)
  {
    var h := n / 2;
    assert hi == h + 1 && n <= 2 * h + 1;
    if n >= 2 {
      SquaresGrow(1, h);
      assert Square(1) == 1;
    }
  }

  lemma BracketFound(n: int, h: nat, power: nat)
    requires 1 <= h <= n && (if n == 1 then h == 1 else n < Square(h)) && SearchBounds(n, power)
    ensures Bracket(n, power, if h > 100 * power then 100 * power else h)
  {
    if power > h { SquaresGrow(h, power); }
    if power >= 2 {
      SquaresGrow(2, power);
      assert Square(2) == 4;
    }
  }

  ghost predicate Halfway(mid: int, lo: int, hi: int) { 2 * mid <= lo + hi < 2 * mid + 2 }

  lemma HalfwayBetween(lo: int, hi: int, mid: int)
    requires 0 <= lo <= hi && mid == Quotient(hi + lo, 2)
    ensures lo <= mid <= hi && Halfway(mid, lo, hi)
  {}

  /** The bounds differ, or both are the root of 1. */
  lemma StrictBracket(n: int, lo: int, hi: int, mid: int)
    requires Bracket(n, lo, hi) && Halfway(mid, lo, hi)
    ensures if n == 1 then mid == 1 && Square(mid) == 1 else lo < hi && lo <= mid < hi
    ensures Square(mid) == n ==> RootBySquares(n, mid)
    ensures Square(mid) < n ==> Bracket(n, mid, hi)
    ensures n < Square(mid) ==> Bracket(n, lo, mid)
  {}

  lemma ClosedBracket(n: int, lo: int, hi: int)
    requires Bracket(n, lo, hi) && n > 1 && hi <= lo + 1
    ensures RootBySquares(n, lo)
  {
    assert lo < hi;
  }

  // ---------------------------------------------------------------- text

  /** s is a row of digits for the number n. */
  ghost predicate Reads(s: string, n: int) { AllDigits(s) && Reading(s) == n }

  lemma PiecePrinted(s: string, digit: int32, above: int)
    requires Reads(s, above) && 0 <= digit < BASE
    ensures var piece := Padded(digit); |piece| == 9 && Reads(s + piece, BASE as int * above + digit as int)
    ensures var piece := Shown(digit as int); 1 <= |piece| <= 9 && (piece[0] == '0' ==> digit == 0)
    ensures s == "" ==> Reads(s + Shown(digit as int), digit as int) && above == 0 && s + Shown(digit as int) == Shown(digit as int)
  {
    NinePlaces();
    ShownLength(digit as int, 9);
    PaddedReads(digit);
    ReadingAppendNine(s, Padded(digit));
    if s == "" { assert s + Shown(digit as int) == Shown(digit as int); }
  }

  /** val holds the pieces of s from position k on. */
  ghost predicate ReadSoFar(s: string, k: nat, val: seq<int32>)
    requires Numeral(s) && k <= |s|
  {
    AllDigits(Unsigned(s[..k])) && ValueOnto(val, Reading(Unsigned(s[..k]))) == Reading(Unsigned(s))
  }

  /** val holds all the pieces of s, and the leading one possibly with its sign. */
  ghost predicate HeadPushed(s: string, val: seq<int32>)
    requires Numeral(s)
  {
    |val| >= 1 && Proper(val[..|val| - 1]) && AllDigits(Unsigned(s[..HeadLength(s)])) &&
    ReadSoFar(s, HeadLength(s), val[..|val| - 1]) && val[|val| - 1] as int == Atoi(s[..HeadLength(s)])
  }

  lemma PiecePushed(s: string, i: nat, val: seq<int32>)
    requires Numeral(s) && i + 9 <= |s| && (i - |s|) % 9 == 0 && Proper(val) && ReadSoFar(s, i + 9, val)
    ensures AllDigits(Unsigned(s[i..i + 9]))
    ensures var piece := Atoi(s[i..i + 9]); -(BASE as int) < piece < BASE as int
    ensures var more := val + [Atoi(s[i..i + 9]) as int32];
      if i == 0 then HeadPushed(s, more) else Proper(more) && ReadSoFar(s, i, more)
  {
    CutNine(s, i);
    if i == 0 {
      HeadOfNine(s, val);
    } else {
      MiddlePushed(s, i, val, Atoi(s[i..i + 9]) as int32);
    }
  }

  lemma MiddlePushed(s: string, i: nat, val: seq<int32>, piece: int32)
    requires Numeral(s) && i <= i + 9 <= |s| && Proper(val) && ReadSoFar(s, i + 9, val) && 0 <= piece < BASE
    requires AllDigits(Unsigned(s[..i]))
    requires Reading(Unsigned(s[..i + 9])) == BASE as int * Reading(Unsigned(s[..i])) + piece as int
    ensures Proper(val + [piece]) && ReadSoFar(s, i, val + [piece])
  {
    OntoAppend(val, piece, Reading(Unsigned(s[..i])));
  }

  lemma HeadOfNine(s: string, val: seq<int32>)
    requires Numeral(s) && 9 <= |s| && |s| % 9 == 0 && Proper(val) && ReadSoFar(s, 9, val)
    requires AllDigits(Unsigned(s[0..9])) && -(BASE as int) < Atoi(s[0..9]) < BASE as int
    ensures HeadPushed(s, val + [Atoi(s[0..9]) as int32])
  {
    assert HeadLength(s) == 9 && s[0..9] == s[..9];
    LastPush(s, val, Atoi(s[..9]) as int32);
  }

  lemma LastPush(s: string, val: seq<int32>, piece: int32)
    requires Numeral(s) && HeadLength(s) <= |s| && AllDigits(Unsigned(s[..HeadLength(s)]))
    requires Proper(val) && ReadSoFar(s, HeadLength(s), val) && piece as int == Atoi(s[..HeadLength(s)])
    ensures HeadPushed(s, val + [piece])
  {
    assert (val + [piece])[..|val|] == val;
  }

  lemma ShortHeadPushed(s: string, k: nat, val: seq<int32>)
    requires Numeral(s) && k == HeadLength(s) && Proper(val) && ReadSoFar(s, k, val)
    requires Reading(Unsigned(s[..k])) < BASE as int
    ensures HeadPushed(s, val + [Atoi(s[..k]) as int32])
  {
    LastPush(s, val, Atoi(s[..k]) as int32);
  }

  lemma ShortHead(s: string, k: nat)
    requires Numeral(s) && 1 <= k < 9 && (k - |s|) % 9 == 0 && k <= |s|
    ensures k == HeadLength(s) && AllDigits(Unsigned(s[..k])) && Reading(Unsigned(s[..k])) < BASE as int
    ensures s[..k] == "-" ==> Reading(Unsigned(s[..k])) == 0
  {
    UnsignedPrefix(s, k);
    ReadingBound(Unsigned(s[..k]));
    NinePlaces();
    Pow10Grows(|Unsigned(s[..k])|, 9);
  }

  lemma HeadBelow(s: string)
    requires Numeral(s)
    ensures AllDigits(Unsigned(s[..HeadLength(s)])) && Reading(Unsigned(s[..HeadLength(s)])) < BASE as int
    ensures s[..HeadLength(s)] != "" && s[..HeadLength(s)][0] == s[0]
  {
    var h := HeadLength(s);
    UnsignedPrefix(s, h);
    ReadingBound(Unsigned(s[..h]));
    NinePlaces();
    Pow10Grows(|Unsigned(s[..h])|, 9);
  }

  lemma HeadSettled(s: string, val: seq<int32>)
    requires Numeral(s) && HeadPushed(s, val)
    ensures val[|val| - 1] != -0x8000_0000
    ensures var t := if val[|val| - 1] < 0 then val[|val| - 1 := -val[|val| - 1]] else val;
      Proper(t) && Value(t) == Reading(Unsigned(s))
    ensures val[|val| - 1] < 0 <==> s[0] == '-' && Reading(Unsigned(s[..HeadLength(s)])) != 0
  {
    var h, n := HeadLength(s), |val| - 1;
    HeadBelow(s);
    var head := Reading(Unsigned(s[..h])) as int32;
    var t := if val[n] < 0 then val[n := -val[n]] else val;
    assert t == val[..n] + [head];
    OntoAppend(val[..n], head, 0);
    OntoNothing(t);
  }

  /** When the leading piece of a negative numeral reads zero. */
  lemma SignRead(s: string)
    requires Numeral(s)
    ensures AllDigits(Unsigned(s[..HeadLength(s)]))
    ensures s[0] == '-' ==>
      (LosesSign(s) <==> s[..HeadLength(s)] != "-" && Reading(Unsigned(s[..HeadLength(s)])) == 0)
  {
    var h := HeadLength(s);
    UnsignedPrefix(s, h);
    if s[0] == '-' {
      ReadingZero(s[1..h]);
      assert forall i :: 1 <= i < h ==> s[i] == s[1..h][i - 1];
      assert s[..h] == "-" <==> h == 1;
    }
  }

  lemma TailsAgree(s: seq<int32>, t: seq<int32>, m: nat, n: nat)
    requires |s| == |t| && m + n <= |s| && forall j :: m + n <= j < |s| ==> t[j] == s[j]
    ensures t[m..][n..] == s[m..][n..]
  {
    assert s[m..][n..] == s[m + n..] && t[m..][n..] == t[m + n..];
    assert s[m + n..] == t[m + n..];
  }

  lemma BorrowKeepsValue(before: seq<int32>, after: seq<int32>, i: nat, k: nat, d: int32)
    requires |before| == |after| && i + k + 1 < |before| && (d == 1 || d == -1)
    requires forall j :: 0 <= j < |before| && j != i && !(i < j <= i + k + 1) ==> after[j] == before[j]
    requires forall j :: i < j <= i + k ==> before[j] == 0 && after[j] == d * UPPER_BOUND
    requires after[i] as int == before[i] as int + d as int * BASE as int
    requires after[i + k + 1] as int == before[i + k + 1] as int - d as int
    ensures Value(after) == Value(before)
  {
    TailsAgree(before, after, i + 1, k + 1);
    BorrowThrough(before[i + 1..], after[i + 1..], k, d);
    ValueUnfold(before, i);
    ValueUnfold(after, i);
    SplitAt(before, i);
    SplitAt(after, i);
    assert before[..i] == after[..i];
    SameSuffix(before[..i], before[i..], after[i..]);
  }

  lemma {:induction false} NegativeValue(s: seq<int32>)
    requires OfSign(s, 0, -1) && SomeNonZero(s, 0)
    ensures Value(s) < 0
  {
    var t := seq(|s|, i requires 0 <= i < |s| => -s[i]);
    NegatedDigits(s, t);
    var j :| 0 <= j < |s| && s[j] != 0;
    SomeDigit(t, j);
  }

  lemma {:induction false} SomeDigit(s: seq<int32>, j: nat)
    requires Proper(s) && j < |s| && s[j] != 0
    ensures 1 <= Value(s)
  {
    if j == 0 { NonNegativeValue(s[1..]); } else { SomeDigit(s[1..], j - 1); }
  }
}
