/** FACE::String (section K.2.3 of the FACE Technical Standard, edition 3.2). */
module FaceString {
  import opened FaceTypes
  import opened XmlBytes

  class String {
    var buf: array?<byte>
    var length: UnsignedLong
    var capacity: UnsignedLong
    var bound: UnsignedLong
    var managed: bool
    var valid: bool
    ghost var mine: set<array<byte>>  // what this object has allocated and not yet freed
    ghost var copied: nat             // existing characters copied when growing

    /** Only own memory is ever kept as managed; a valid string has length <= capacity <= bound. */
    ghost predicate Valid()
      reads this, buf
    {
      && mine == (if managed && buf != null then {buf} else {}) && (buf != null ==> buf.Length > 0)
      && (valid ==>
        && length <= capacity <= bound
        && (buf == null ==> managed && capacity == 0)
        && (buf != null ==> capacity as int < buf.Length)
        && (managed && buf != null ==> buf.Length == capacity as int + 1 && buf[length] == 0)
        && (!managed ==> capacity == bound != UNBOUNDED))
    }

    /** The characters; none when invalid. */
    ghost function Content(): (r: Bytes)
      reads this, buf
      requires Valid()
      ensures |r| == if valid then length as int else 0
    {
      if !valid || buf == null then [] else buf[..length]
    }

    /** What is known of the copying as long as a fresh string is only appended to. */
    ghost predicate Amortized()
      reads this
    {
      && (copied == 0 || (copied + 8 <= 2 * length as int && (copied + 8 <= capacity as int || capacity == bound)))
      && (capacity == 0 || capacity >= 8 || capacity == bound)
    }

    /** The length that appending can reach without doubling a capacity of 2^31 or more. */
    ghost function Limit(): (r: UnsignedLong)
      reads this
      requires capacity <= bound
    {
      Reach(capacity, bound, 8)
    }

    /** The constructors without their checks. */
    constructor Fields(buf: array?<byte>, length: UnsignedLong, capacity: UnsignedLong, bound: UnsignedLong,
                       managed: bool, valid: bool)
      ensures this.buf == buf && this.length == length && this.capacity == capacity && this.bound == bound
      ensures this.managed == managed && this.valid == valid && mine == {} && copied == 0
    {
      this.buf, this.length, this.capacity, this.bound := buf, length, capacity, bound;
      this.managed, this.valid := managed, valid;
      mine, copied := {}, 0;
    }

    /** The default constructor: managed, unbounded, empty. */
    static method New() returns (s: String)
      ensures fresh(s) && s.Valid() && s.valid && s.managed && s.bound == UNBOUNDED && s.buf == null
      ensures s.Content() == [] && s.Amortized()
    {
      s := new String.Fields(null, 0, 0, UNBOUNDED, true, true);
    }

    static method NewBounded(bound: UnsignedLong) returns (s: String, rc: ReturnCode)
      ensures fresh(s) && s.Valid() && s.Content() == [] && s.buf == null
      ensures if bound == 0 || bound == UNBOUNDED then rc == PreconditionViolated && !s.valid
              else rc == NoError && s.valid && s.managed && s.bound == bound && s.Amortized()
    {
      if bound == 0 || bound == UNBOUNDED {
        s := new String.Fields(null, 0, 0, 0, true, false);
        return s, PreconditionViolated;
      }
      s := new String.Fields(null, 0, 0, bound, true, true);
      rc := NoError;
    }

    /** Wraps a caller's buffer that has room for `bound` characters and a NUL. */
    static method Wrap(str: array?<byte>, length: UnsignedLong, bound: UnsignedLong)
      returns (s: String, rc: ReturnCode)
      requires str != null ==> bound as int < str.Length
      ensures fresh(s) && s.Valid() && s.mine == {} && !s.managed
      ensures if str == null || length > bound || bound == 0 || bound == UNBOUNDED
              then rc == PreconditionViolated && !s.valid
              else rc == NoError && s.valid && s.buf == str && s.bound == bound && s.Content() == str[..length]
    {
      if str == null || length > bound || bound == 0 || bound == UNBOUNDED {
        s := new String.Fields(str, length, bound, bound, false, false);
        return s, PreconditionViolated;
      }
      s := new String.Fields(str, length, bound, bound, false, true);
      rc := NoError;
    }

    /** Only memory of this object's own is given back, and only once. */
    method Delete()
      requires buf != null && buf in mine
      modifies this`mine
      ensures mine == old(mine) - {buf}
    {
      mine := mine - {buf};
    }

    /** `memory` says whether the allocation succeeds; without it nothing changes. */
    method Allocate(chars: UnsignedLong, preserve: bool, memory: bool) returns (ok: bool)
      requires managed && mine == (if buf != null then {buf} else {})
      requires chars != UNBOUNDED
      requires preserve && buf != null ==> length <= chars && length as int <= buf.Length
      requires preserve && buf == null ==> length == 0
      modifies this`buf, this`capacity, this`mine, this`copied
      ensures ok == memory
      ensures !ok ==> buf == old(buf) && capacity == old(capacity) && mine == old(mine) && copied == old(copied)
      ensures ok ==> buf != null && fresh(buf) && mine == {buf} && capacity == chars && buf.Length == chars as int + 1
      ensures ok && preserve ==> buf[length] == 0
      ensures ok && preserve ==> buf[..length] == if old(buf) == null then [] else old(buf[..length])
      ensures ok && !preserve ==> buf[0] == 0
      ensures ok ==> copied == old(copied) + (if preserve && old(buf) != null then length as int else 0)
    {
      if !memory {
        return false;
      }
      var newbuf := new byte[chars as int + 1];
      if preserve && buf != null {
        forall i | 0 <= i < length as int {
          newbuf[i] := buf[i];
        }
        newbuf[length] := 0;
        copied := copied + length as int;
        assert newbuf[..length] == buf[..length];
      } else {
        newbuf[0] := 0;
      }
      if buf != null {
        Delete();
      }
      buf, capacity, mine := newbuf, chars, mine + {newbuf};
      ok := true;
    }

    /** Writes behind the last character, and a NUL behind that. */
    method Put(elem: byte)
      requires Valid() && valid && buf != null && length < capacity
      modifies this`length, buf
      ensures Valid() && length as int == old(length) as int + 1 && Content() == old(Content()) + [elem]
    {
      ghost var content := Content();
      buf[length] := elem;
      length := length + 1;
      buf[length] := 0;
      assert buf[..length] == content + [elem];
    }

    /** Doubles the room of a full string. */
    method Grow(memory: bool) returns (ok: bool)
      requires Valid() && valid && length == capacity < bound && capacity < 0x8000_0000
      modifies this`buf, this`capacity, this`mine, this`copied
      ensures Valid() && ok == memory && Content() == old(Content())
      ensures if ok then fresh(buf) && length < capacity else buf == old(buf) && capacity == old(capacity)
      ensures ok ==> capacity == Grown(old(capacity), bound, 8) && copied as int == old(copied) as int + length as int
      ensures !ok ==> copied == old(copied)
    {
      var newCap := Grown(capacity, bound, 8);
      GrowthIff(capacity, bound, 8);
      ok := Allocate(newCap, true, memory);
    }

    /** Appends one character, or leaves the string as it is. */
    method AppendChar(elem: byte, memory: bool) returns (rc: ReturnCode)
      requires Valid()
      requires valid && length == capacity && (bound == UNBOUNDED || length < bound) ==> capacity < 0x8000_0000
      modifies this`buf, this`length, this`capacity, this`mine, this`copied, buf
      ensures Valid() && (buf == old(buf) || fresh(buf)) && (!managed ==> buf == old(buf))
      ensures rc == if !valid then PreconditionViolated
                    else if bound != UNBOUNDED && old(length) >= bound then InsufficientBound
                    else if old(length) >= old(capacity) && !memory then InsufficientMemory
                    else NoError
      ensures Content() == old(Content()) + (if rc == NoError then [elem] else [])
      ensures valid ==> Limit() == old(Limit())
      ensures !memory ==> buf == old(buf) && capacity == old(capacity)
      ensures old(Amortized()) ==> Amortized()
    {
      if !valid {
        return PreconditionViolated;
      }
      if bound != UNBOUNDED && length >= bound {
        return InsufficientBound;
      }
      if length >= capacity {
        var ok := Grow(memory);
        if !ok {
          return InsufficientMemory;
        }
      }
      Put(elem);
      rc := NoError;
    }

    lemma BelowLimit()
      requires Valid() && valid
      ensures length <= capacity <= bound && |Content()| == length as int
      ensures length < Limit() && length == capacity ==> capacity < 0x8000_0000
    {
    }

    lemma CopiedFew()
      requires Valid() && valid && Amortized()
      ensures capacity <= bound && length <= capacity && (copied == 0 || copied < 2 * |Content()|)
    {
    }

    /** How many of n more characters the bound lets in. */
    ghost function Fitting(n: UnsignedLong): (r: int)
      reads this
      requires valid && length <= bound
    {
      Fits(length as int + n as int, bound) - length as int
    }

    /**
     Appends the characters of another string, one by one: the first n of them. As long as memory
     lasts that is the longest prefix the bound lets in; `memory(i)` says whether an allocation for
     the i-th succeeds.
     */
    method Append(str: String, memory: nat -> bool) returns (rc: ReturnCode, ghost n: nat)
      requires Valid() && str.Valid() && (str.valid || str.length == 0)
      requires str != this && (buf != null ==> str.buf != buf)
      requires valid ==> length as int + Fitting(str.length) <= Limit() as int
      modifies this`buf, this`length, this`capacity, this`mine, this`copied, buf
      ensures Valid() && str.Content() == old(str.Content()) && n <= |str.Content()|
      ensures Content() == old(Content()) + str.Content()[..n]
      ensures !valid ==> rc == PreconditionViolated && n == 0
      ensures valid && (forall i :: memory(i)) ==> n == old(Fitting(str.length))
      ensures valid ==> (rc == NoError <==> n == |str.Content()|)
      ensures valid && (forall i :: memory(i)) && rc != NoError ==> rc == InsufficientBound
      ensures old(Amortized()) ==> Amortized()
    {
      hide Amortized, Valid, Content, Limit;
      if valid {
        BelowLimit();
      }
      n := 0;
      rc := if valid then NoError else PreconditionViolated;
      ghost var text, before := str.Content(), Content();
      var i: UnsignedLong := 0;
      while valid && i < str.length && rc == NoError
        invariant n == i as int <= |text| && Valid() && str.Valid() && str.Content() == text
        invariant str.valid || str.length == 0
        invariant valid == old(valid) && bound == old(bound) && (buf == old(buf) || fresh(buf))
        invariant if valid then length as int == old(length) as int + n && n <= old(Fitting(str.length)) else n == 0
        invariant Content() == before + text[..n]
        invariant if valid then rc != PreconditionViolated else rc == PreconditionViolated
        invariant valid && rc != NoError ==> n < |text|
        invariant valid ==> capacity <= bound && Limit() == old(Limit())
        invariant rc == InsufficientBound ==> n == old(Fitting(str.length))
        invariant rc == InsufficientMemory ==> exists k :: !memory(k)
        invariant old(Amortized()) ==> Amortized()
        decreases str.length - i, rc == NoError
      {
        BelowLimit();
        rc := AppendNth(str, i, memory(i as int), text);
        if rc == NoError {
          assert text[..i + 1] == text[..i] + [text[i]];
          i, n := i + 1, n + 1;
        }
      }
    }

    method AppendNth(str: String, i: UnsignedLong, memory: bool, ghost text: Bytes) returns (rc: ReturnCode)
      requires Valid() && valid && str.Valid() && str.valid && str != this && (buf != null ==> str.buf != buf)
      requires i < str.length && text == str.Content()
      requires length == capacity && (bound == UNBOUNDED || length < bound) ==> capacity < 0x8000_0000
      modifies this`buf, this`length, this`capacity, this`mine, this`copied, buf
      ensures Valid() && valid && (buf == old(buf) || fresh(buf)) && str.Valid() && str.Content() == text
      ensures Content() == old(Content()) + if rc == NoError then [text[i]] else []
      ensures rc == InsufficientBound <==> bound != UNBOUNDED && old(length) >= bound
      ensures rc == InsufficientMemory ==> !memory
      ensures rc != PreconditionViolated && bound == old(bound)
      ensures capacity <= bound && Limit() == old(Limit())
      ensures old(Amortized()) ==> Amortized()
    {
      assert text[i] == str.buf[i];
      rc := AppendChar(str.buf[i], memory);
    }

    /**
     Appending a string to itself. No growth may succeed meanwhile, since what is appended would lie
     in the memory just given back. Without growth the string is repeated until it is full, and then
     the call fails, unless there was nothing to append.
     */
    method AppendSelf() returns (rc: ReturnCode)
      requires Valid() && (valid && (bound == UNBOUNDED || capacity < bound) ==> capacity < 0x8000_0000)
      modifies this`buf, this`length, this`capacity, this`mine, this`copied, buf
      ensures Valid() && buf == old(buf) && capacity == old(capacity) && Repeats(Content(), old(Content()))
      ensures rc == if !valid then PreconditionViolated
                    else if old(length) == 0 then NoError
                    else if bound == capacity then InsufficientBound
                    else InsufficientMemory
      ensures valid && old(length) > 0 ==> length == capacity
    {
      hide Repeats, Amortized, Limit;
      ghost var before := Content();
      RepeatsOnce(before);
      if !valid {
        return PreconditionViolated;
      }
      rc := NoError;
      var i: UnsignedLong := 0;
      while i < length && rc == NoError
        invariant Valid() && i <= length && old(length) as int + i as int == length as int
        invariant buf == old(buf) && capacity == old(capacity) && Repeats(Content(), before)
        invariant rc == NoError || (length == capacity && i < length)
        invariant rc == NoError || rc == if bound == capacity then InsufficientBound else InsufficientMemory
        decreases capacity - length, rc == NoError
      {
        var elem := buf[i];
        ghost var now := Content();
        RepeatsMore(now, before, elem);
        assert now + [] == now;
        rc := AppendChar(elem, false);
        if rc == NoError {
          i := i + 1;
        }
      }
    }

    method Clear()
      requires Valid()
      modifies this`length, buf
      ensures Valid() && Content() == [] && capacity == old(capacity)
    {
      length := 0;
      if buf != null {
        buf[0] := 0;
      }
    }

    /** Preallocates; a bounded string's room is fixed. The NUL needs one byte more than is asked for. */
    method Reserve(chars: UnsignedLong, memory: bool) returns (rc: ReturnCode)
      requires Valid() && (chars == UNBOUNDED ==> !valid || !managed || bound != UNBOUNDED || chars <= capacity)
      modifies this`buf, this`capacity, this`mine, this`copied
      ensures Valid() && Content() == old(Content())
      ensures rc == if !valid || !managed || bound != UNBOUNDED then PreconditionViolated
                    else if chars > old(capacity) && !memory then InsufficientMemory
                    else NoError
      ensures rc == NoError ==> capacity >= chars && capacity >= old(capacity)
    {
      if !valid || !managed || bound != UNBOUNDED {
        return PreconditionViolated;
      }
      if chars <= capacity {
        return NoError;
      }
      var ok := Allocate(chars, true, memory);
      rc := if ok then NoError else InsufficientMemory;
    }

    /** The deep copy that the copy constructor and assignment share. */
    method CopyFrom(text: array?<byte>, n: UnsignedLong, memory: bool)
      requires managed && mine == {} && buf == null && length == 0 && !valid
      requires n != UNBOUNDED && n <= bound && (text == null ==> n == 0) && (text != null ==> n as int <= text.Length)
      modifies this
      ensures Valid() && valid == memory && bound == old(bound) && managed
      ensures valid ==> Content() == (if text == null then [] else text[..n]) && capacity == n && fresh(buf)
    {
      var ok := Allocate(n, false, memory);
      if ok {
        if text != null {
          forall i | 0 <= i < n as int {
            buf[i] := text[i];
          }
        }
        buf[n] := 0;
        length := n;
        valid := true;
        assert text != null ==> buf[..n] == text[..n];
      }
    }

    /** strlen; only strings that UnsignedLong can measure are passed. */
    static method Strlen(str: array<byte>, ghost text: Bytes) returns (n: UnsignedLong)
      requires Holds(str, 0, text, 0) && NoNul(text) && |text| < UNBOUNDED as int
      ensures n as int == |text| < str.Length && str[..n] == text
    {
      n := 0;
      while str[n] != 0
        invariant n as int <= |text|
        decreases |text| - n as int
      {
        n := n + 1;
      }
      Held(str, 0, text, 0, n as int);
      assert n as int == |text|;
    }

    /** Wraps a C string; its length is all the room there is. */
    static method WrapCString(str: array?<byte>, ghost text: Bytes) returns (s: String)
      requires str != null ==> Holds(str, 0, text, 0) && NoNul(text) && |text| < UNBOUNDED as int
      ensures fresh(s) && s.Valid() && s.mine == {} && !s.managed && s.valid == (str != null)
      ensures s.valid ==> s.buf == str && s.Content() == text && s.bound as int == |text|
    {
      if str == null {
        s := new String.Fields(null, 0, 0, 0, false, false);
      } else {
        var n := Strlen(str, text);
        s := new String.Fields(str, n, n, n, false, true);
      }
    }

    /** A managed copy of a C string; the bound is its length. */
    static method FromCString(str: array?<byte>, ghost text: Bytes, memory: bool) returns (s: String, rc: ReturnCode)
      requires str != null ==> Holds(str, 0, text, 0) && NoNul(text) && |text| < UNBOUNDED as int
      ensures fresh(s) && s.Valid() && s.managed && s.valid == (rc == NoError)
      ensures rc == if str == null then PreconditionViolated else if !memory then InsufficientMemory else NoError
      ensures s.valid ==> s.Content() == text && s.bound as int == |text|
    {
      if str == null {
        s := new String.Fields(null, 0, 0, 0, true, false);
        return s, PreconditionViolated;
      }
      var n := Strlen(str, text);
      s := new String.Fields(null, 0, 0, n, true, false);
      s.CopyFrom(str, n, memory);
      rc := if s.valid then NoError else InsufficientMemory;
    }

    static method Copy(str: String, memory: bool) returns (s: String)
      requires str.Valid() && str.length != UNBOUNDED
      ensures fresh(s) && s.Valid() && s.managed && s.bound == str.bound && s.valid == (str.valid && memory)
      ensures s.valid ==> s.Content() == str.Content() && s.buf != str.buf
    {
      s := new String.Fields(null, 0, 0, str.bound, true, false);
      if str.valid {
        s.CopyFrom(str.buf, str.length, memory);
      }
    }

    /** Assignment frees what this string owned and takes over the bound. */
    method Assign(str: String, memory: bool)
      requires Valid() && str.Valid() && str.length != UNBOUNDED
      requires managed && buf != null && this != str ==> buf != str.buf
      modifies this
      ensures Valid() && (this != str ==> managed && bound == old(str.bound) && valid == (old(str.valid) && memory))
      ensures valid && this != str ==> Content() == old(str.Content())
      ensures this == str ==> Content() == old(Content()) && valid == old(valid)
    {
      if this == str {
        return;
      }
      if managed && buf != null {
        Delete();
      }
      buf, length, capacity, managed, bound, valid := null, 0, 0, true, str.bound, false;
      if str.valid {
        CopyFrom(str.buf, str.length, memory);
      }
    }

    /** Out of range there is a NUL. */
    function At(index: UnsignedLong): (r: byte)
      reads this, buf
      requires Valid()
      ensures r == if index as int < |Content()| then Content()[index] else 0
    {
      if !valid || index >= length then 0 else buf[index]
    }
  }

  /** s is `part` over and over again. */
  ghost predicate Repeats(s: Bytes, part: Bytes) {
    part <= s && forall i :: |part| <= i < |s| ==> s[i] == s[i - |part|]
  }

  lemma RepeatsMore(s: Bytes, part: Bytes, elem: byte)
    requires Repeats(s, part) && part != [] && elem == s[|s| - |part|]
    ensures Repeats(s + [elem], part)
  {
  }

  lemma RepeatsOnce(s: Bytes)
    ensures Repeats(s, s)
  {
  }

  /**
   Any number of appends to a fresh managed string, bounded or not and whether or not allocations
   succeed, copy fewer than twice as many characters as the string holds.
   */
  method AppendMany(s: String, text: Bytes, memory: nat -> bool)
    requires s.Valid() && s.valid && s.managed && s.Content() == [] && s.Amortized()
    requires Fits(|text|, s.bound) <= s.Limit() as int
    modifies s, s.buf
    ensures s.Valid() && s.valid && s.bound == old(s.bound) && (s.buf == old(s.buf) || fresh(s.buf))
    ensures |s.Content()| <= |text| && (s.copied == 0 || s.copied < 2 * |s.Content()|)
    ensures (forall i :: memory(i)) ==> s.Content() == text[..Fits(|text|, s.bound)]
  {
    hide String.Valid, String.Amortized, String.Content, String.Limit;
    s.CopiedFew();
    ghost var bound, limit := s.bound, s.Limit();
    var i := 0;
    while i < |text|
      invariant i <= |text| && s.Valid() && s.valid && s.managed && s.bound == bound && s.Amortized()
      invariant |s.Content()| <= i && s.capacity <= bound && s.Limit() == limit && (s.buf == old(s.buf) || fresh(s.buf))
      invariant (forall k :: memory(k)) ==> s.Content() == text[..Fits(i, bound)]
    {
      s.BelowLimit();
      var rc := s.AppendChar(text[i], memory(i));
      assert text[..i + 1] == text[..i] + [text[i]];
      s.CopiedFew();
      i := i + 1;
    }
    s.CopiedFew();
  }
}
