/** FACE::Sequence (section K.2.2 of the FACE Technical Standard, edition 3.2). */
module FaceSequence {
  import opened FaceTypes

  class Sequence<T(0)> {
    var buf: array?<T>
    var length: UnsignedLong
    var capacity: UnsignedLong
    var bound: UnsignedLong
    var managed: bool
    var valid: bool
    ghost var mine: set<array<T>>  // what this object has allocated and not yet freed
    ghost var copied: nat          // existing elements copied when growing

    /** Managed memory is own memory: what the destructor and every growth rely on. */
    ghost predicate OwnsItsBuffer()
      reads this
    {
      mine == if managed && buf != null then {buf} else {}
    }

    ghost predicate Valid()
      reads this, buf
    {
      && OwnsItsBuffer()
      && (valid ==>
        && length <= capacity <= bound
        && (if buf == null then managed && capacity == 0 else capacity as int <= buf.Length)
        && (!managed ==> capacity == bound))
    }

    ghost function Content(): (r: seq<T>)
      reads this, buf
      requires Valid()
      ensures |r| == if valid then length as int else 0
    {
      if !valid || buf == null then [] else buf[..length]
    }

    /** What is known of the copying as long as a fresh sequence is only appended to. */
    ghost predicate Amortized()
      reads this
    {
      && (copied == 0 || (copied + 4 <= 2 * length as int && (copied + 4 <= capacity as int || capacity == bound)))
      && (capacity == 0 || capacity >= 4 || capacity == bound)
    }

    /** The length that appending can reach without doubling a capacity of 2^31 or more. */
    ghost function Limit(): (r: UnsignedLong)
      reads this
      requires capacity <= bound
    {
      Reach(capacity, bound, 4)
    }

    constructor Fields(buf: array?<T>, length: UnsignedLong, capacity: UnsignedLong, bound: UnsignedLong,
                       managed: bool, valid: bool)
      ensures this.buf == buf && this.length == length && this.capacity == capacity && this.bound == bound
      ensures this.managed == managed && this.valid == valid && mine == {} && copied == 0
    {
      this.buf, this.length, this.capacity, this.bound := buf, length, capacity, bound;
      this.managed, this.valid := managed, valid;
      mine, copied := {}, 0;
    }

    /** Managed and empty, of any bound; the default constructor passes UNBOUNDED. */
    static method New(bound: UnsignedLong) returns (s: Sequence<T>)
      ensures fresh(s) && s.Valid() && s.valid && s.managed && s.bound == bound && s.buf == null
      ensures s.Content() == [] && s.Amortized()
    {
      s := new Sequence.Fields(null, 0, 0, bound, true, true);
    }

    /** Wraps a caller's buffer of `bound` elements. A length above the bound is taken as it is. */
    static method Wrap(elems: array?<T>, length: UnsignedLong, bound: UnsignedLong)
      returns (s: Sequence<T>, rc: ReturnCode)
      requires elems != null ==> bound as int <= elems.Length
      ensures fresh(s) && s.OwnsItsBuffer() && s.mine == {} && !s.managed && s.buf == elems
      ensures s.length == length && s.capacity == s.bound == bound && s.valid == (elems != null)
      ensures rc == if elems == null then PreconditionViolated else NoError
      ensures s.Valid() <==> elems == null || length <= bound
      ensures elems != null && length <= bound ==> s.Content() == elems[..length]
    {
      if elems == null {
        s := new Sequence.Fields(null, length, bound, bound, false, false);
        return s, PreconditionViolated;
      }
      s := new Sequence.Fields(elems, length, bound, bound, false, true);
      rc := NoError;
    }

    /** Only memory of this object's own is given back, and only once. */
    method Delete()
      requires buf != null && buf in mine
      modifies this`mine
      ensures mine == old(mine) - {buf}
    {
      mine := mine - {buf};
    }

    /** The destructor. */
    method Destroy()
      requires OwnsItsBuffer()
      modifies this`mine
      ensures mine == {}
    {
      if managed && buf != null {
        Delete();
      }
    }

    /** Makes room for `chars` elements; the elements stay. */
    method Reserve(cap: UnsignedLong, memory: bool) returns (rc: ReturnCode)
      requires Valid()
      modifies this`buf, this`capacity, this`mine, this`copied
      ensures Valid() && Content() == old(Content())
      ensures rc == if !valid || !managed then PreconditionViolated
                    else if cap <= old(capacity) then NoError
                    else if bound != UNBOUNDED && cap > bound then InsufficientBound
                    else if !memory then InsufficientMemory
                    else NoError
      ensures if rc == NoError && cap > old(capacity)
              then capacity == cap && fresh(buf) && copied == old(copied) + length as int
              else capacity == old(capacity) && buf == old(buf) && copied == old(copied)
    {
      if !valid || !managed {
        return PreconditionViolated;
      }
      if cap <= capacity {
        return NoError;
      }
      if bound != UNBOUNDED && cap > bound {
        return InsufficientBound;
      }
      if !memory {
        return InsufficientMemory;
      }
      ghost var content := Content();
      var newbuf := new T[cap];
      for i := 0 to length as int
        modifies newbuf
        invariant forall j :: 0 <= j < i ==> newbuf[j] == buf[j]
      {
        newbuf[i] := buf[i];
      }
      assert newbuf[..length] == content;
      copied := copied + length as int;
      if buf != null {
        Delete();
      }
      buf, capacity, mine := newbuf, cap, mine + {newbuf};
      rc := NoError;
    }

    method Put(elem: T)
      requires Valid() && valid && buf != null && length < capacity
      modifies this`length, buf
      ensures Valid() && length as int == old(length) as int + 1 && Content() == old(Content()) + [elem]
    {
      ghost var content := Content();
      buf[length] := elem;
      length := length + 1;
      assert buf[..length] == content + [elem];
    }

    /** Appends one element, or leaves the sequence as it is. */
    method AppendElem(elem: T, memory: bool) returns (rc: ReturnCode)
      requires Valid()
      requires valid && managed && length == capacity && (bound == UNBOUNDED || length < bound)
               ==> capacity < 0x8000_0000
      modifies this`buf, this`length, this`capacity, this`mine, this`copied, buf
      ensures Valid() && (buf == old(buf) || fresh(buf)) && (!managed ==> buf == old(buf))
      ensures rc == if !valid then PreconditionViolated
                    else if bound != UNBOUNDED && old(length) >= bound then InsufficientBound
                    else if old(length) < old(capacity) then NoError
                    else if !managed then PreconditionViolated
                    else if !memory then InsufficientMemory
                    else NoError
      ensures Content() == old(Content()) + if rc == NoError then [elem] else []
      ensures valid ==> Limit() == old(Limit())
      ensures !memory ==> buf == old(buf) && capacity == old(capacity)
      ensures old(Amortized()) ==> Amortized()
    {
      if !valid {
        return PreconditionViolated;
      }
      if bound != UNBOUNDED && length >= bound {
        return InsufficientBound;
      }
      if length >= capacity {
        var newCap := Grown(capacity, bound, 4);
        if managed {
          GrowthIff(capacity, bound, 4);
        }
        rc := Reserve(newCap, memory);
        if rc != NoError {
          return;
        }
      }
      Put(elem);
      rc := NoError;
    }

    lemma BelowLimit()
      requires Valid() && valid
      ensures length <= capacity <= bound && |Content()| == length as int
      ensures length < Limit() && length == capacity ==> capacity < 0x8000_0000
    {
    }

    lemma CopiedFew()
      requires Valid() && valid && Amortized()
      ensures capacity <= bound && length <= capacity && (copied == 0 || copied < 2 * |Content()|)
    {
    }

    /** How many of n more elements the bound lets in. */
    ghost function Fitting(n: UnsignedLong): (r: int)
      reads this
      requires valid && length <= bound
    {
      Fits(length as int + n as int, bound) - length as int
    }

    /** Appends the first n elements of another sequence; as long as memory lasts, all that fit. */
    method Append(other: Sequence<T>, memory: nat -> bool) returns (rc: ReturnCode, ghost n: nat)
      requires Valid() && other.Valid() && (other.valid || other.length == 0)
      requires other != this && (buf != null ==> other.buf != buf)
      requires valid ==> length as int + Fitting(other.length) <= Limit() as int
      modifies this`buf, this`length, this`capacity, this`mine, this`copied, buf
      ensures Valid() && other.Content() == old(other.Content()) && n <= |other.Content()|
      ensures Content() == old(Content()) + other.Content()[..n]
      ensures !valid ==> rc == PreconditionViolated && n == 0
      ensures valid && (forall i :: memory(i)) ==> n == old(Fitting(other.length))
      ensures valid ==> (rc == NoError <==> n == |other.Content()|)
      ensures valid && (forall i :: memory(i)) && rc != NoError ==> rc == InsufficientBound
      ensures old(Amortized()) ==> Amortized()
    {
      hide Amortized, Valid, Content, Limit;
      if valid {
        BelowLimit();
      }
      n := 0;
      rc := if valid then NoError else PreconditionViolated;
      ghost var elems, before := other.Content(), Content();
      var i: UnsignedLong := 0;
      while valid && i < other.length && rc == NoError
        invariant n == i as int <= |elems| && Valid() && other.Valid() && other.Content() == elems
        invariant other.valid || other.length == 0
        invariant valid == old(valid) && bound == old(bound) && (buf == old(buf) || fresh(buf))
        invariant if valid then length as int == old(length) as int + n && n <= old(Fitting(other.length)) else n == 0
        invariant Content() == before + elems[..n]
        invariant if valid then rc != PreconditionViolated else rc == PreconditionViolated
        invariant valid && rc != NoError ==> n < |elems|
        invariant valid ==> capacity <= bound && Limit() == old(Limit())
        invariant rc == InsufficientBound ==> n == old(Fitting(other.length))
        invariant rc == InsufficientMemory ==> exists k :: !memory(k)
        invariant old(Amortized()) ==> Amortized()
        decreases other.length - i, rc == NoError
      {
        BelowLimit();
        rc := AppendNth(other, i, memory(i as int), elems);
        if rc == NoError {
          assert elems[..i + 1] == elems[..i] + [elems[i]];
          i, n := i + 1, n + 1;
        }
      }
    }

    method AppendNth(other: Sequence<T>, i: UnsignedLong, memory: bool, ghost elems: seq<T>) returns (rc: ReturnCode)
      requires Valid() && valid && other.Valid() && other.valid && other != this && (buf != null ==> other.buf != buf)
      requires i < other.length && elems == other.Content()
      requires length == capacity && (bound == UNBOUNDED || length < bound) ==> capacity < 0x8000_0000
      modifies this`buf, this`length, this`capacity, this`mine, this`copied, buf
      ensures Valid() && valid && (buf == old(buf) || fresh(buf)) && other.Valid() && other.Content() == elems
      ensures Content() == old(Content()) + if rc == NoError then [elems[i]] else []
      ensures rc == InsufficientBound <==> bound != UNBOUNDED && old(length) >= bound
      ensures rc == InsufficientMemory ==> !memory
      ensures rc != PreconditionViolated && bound == old(bound)
      ensures capacity <= bound && Limit() == old(Limit())
      ensures old(Amortized()) ==> Amortized()
    {
      assert elems[i] == other.buf[i];
      rc := AppendElem(other.buf[i], memory);
    }

    /**
     Appending a sequence to itself. No growth may succeed meanwhile, since what is appended would lie
     in the memory just given back. Without growth the sequence is repeated until it is full, and then
     the call fails, unless there was nothing to append.
     */
    method AppendSelf() returns (rc: ReturnCode)
      requires Valid() && (valid && (bound == UNBOUNDED || capacity < bound) ==> capacity < 0x8000_0000)
      modifies this`buf, this`length, this`capacity, this`mine, this`copied, buf
      ensures Valid() && buf == old(buf) && capacity == old(capacity) && Repeats(Content(), old(Content()))
      ensures rc == if !valid then PreconditionViolated
                    else if old(length) == 0 then NoError
                    else if bound == capacity then InsufficientBound
                    else InsufficientMemory
      ensures valid && old(length) > 0 ==> length == capacity
    {
      hide Repeats, Amortized, Limit;
      ghost var before := Content();
      RepeatsOnce(before);
      if !valid {
        return PreconditionViolated;
      }
      rc := NoError;
      var i: UnsignedLong := 0;
      while i < length && rc == NoError
        invariant Valid() && i <= length && old(length) as int + i as int == length as int
        invariant buf == old(buf) && capacity == old(capacity) && Repeats(Content(), before)
        invariant rc == NoError || (length == capacity && i < length)
        invariant rc == NoError || rc == if bound == capacity then InsufficientBound else InsufficientMemory
        decreases capacity - length, rc == NoError
      {
        var elem := buf[i];
        ghost var now := Content();
        RepeatsMore(now, before, elem);
        assert now + [] == now;
        rc := AppendElem(elem, false);
        if rc == NoError {
          i := i + 1;
        }
      }
    }

    method Clear()
      requires Valid()
      modifies this`length
      ensures Valid() && Content() == [] && capacity == old(capacity) && buf == old(buf)
    {
      length := 0;
    }

    /** The deep copy the constructors and assignment share, into a sequence that is not valid yet. */
    method CopyFrom(elems: array?<T>, n: UnsignedLong, memory: bool)
      requires managed && mine == {} && length == 0 && capacity == 0 && !valid && n <= bound
      requires n > 0 ==> elems != null && n as int <= elems.Length
      modifies this
      ensures managed && bound == old(bound)
      ensures n > 0 ==> Valid() && valid == memory && (valid ==> fresh(buf) && Content() == elems[..n] && capacity == n)
      ensures n == 0 ==> valid && length == capacity == 0 && buf == old(buf) && mine == {}
    {
      if n > 0 {
        if !memory {
          buf := null;
          return;
        }
        var newbuf := new T[n];
        for i := 0 to n as int
          modifies newbuf
          invariant forall j :: 0 <= j < i ==> newbuf[j] == elems[j]
        {
          newbuf[i] := elems[i];
        }
        buf, mine, capacity := newbuf, {newbuf}, n;
        assert buf[..n] == elems[..n];
      }
      length := n;
      valid := true;
    }

    static method Copy(other: Sequence<T>, memory: bool) returns (s: Sequence<T>)
      requires other.Valid()
      ensures fresh(s) && s.Valid() && s.managed && s.bound == other.bound
      ensures s.valid == (other.valid && (other.length == 0 || memory))
      ensures s.valid ==> s.Content() == other.Content() && (s.buf != null ==> s.buf != other.buf)
    {
      s := new Sequence.Fields(null, 0, 0, other.bound, true, false);
      if other.valid {
        s.CopyFrom(other.buf, other.length, memory);
      }
    }

    /** A managed copy of a caller's elements; the bound is their number. */
    static method FromArray(elems: array?<T>, length: UnsignedLong, memory: bool)
      returns (s: Sequence<T>, rc: ReturnCode)
      requires elems != null ==> length as int <= elems.Length
      ensures fresh(s) && s.Valid() && s.managed && s.bound == length
      ensures rc == if elems == null then PreconditionViolated
                    else if length > 0 && !memory then InsufficientMemory
                    else NoError
      ensures s.valid == (rc == NoError) && (s.valid ==> s.Content() == elems[..length])
    {
      s := new Sequence.Fields(null, 0, 0, length, true, false);
      if elems == null {
        return s, PreconditionViolated;
      }
      s.CopyFrom(elems, length, memory);
      rc := if s.valid then NoError else InsufficientMemory;
    }

    /**
     Assignment. The result owns its buffer exactly when the target did not wrap a caller's buffer
     or the source has elements to copy; otherwise a caller's buffer stays in place as if it were
     managed, and a later growth or the destructor would give it back.
     */
    method Assign(other: Sequence<T>, memory: bool)
      requires Valid() && other.Valid() && (managed && buf != null && this != other ==> buf != other.buf)
      modifies this
      ensures this == other ==> Valid() && Content() == old(Content()) && valid == old(valid) && buf == old(buf)
      ensures this != other ==> managed && bound == old(other.bound)
      ensures this != other ==> valid == (old(other.valid) && (old(other.length) == 0 || memory))
      ensures OwnsItsBuffer() <==> this == other || old(managed || buf == null) || old(other.valid && other.length > 0)
      ensures this != other && OwnsItsBuffer() ==> Valid() && (valid ==> Content() == old(other.Content()))
      ensures !OwnsItsBuffer() ==> buf == old(buf) != null && length == 0 && mine == {}
    {
      if this == other {
        return;
      }
      if managed && buf != null {
        Delete();
        buf := null;
      }
      length, capacity, managed, bound, valid := 0, 0, true, other.bound, false;
      if other.valid {
        CopyFrom(other.buf, other.length, memory);
      }
    }
  }

  /** A sequence that wraps a caller's buffer takes it for its own when an empty sequence is assigned to it. */
  method AdoptForeign<T(0)>(elems: array<T>, length: UnsignedLong, bound: UnsignedLong) returns (s: Sequence<T>)
    requires length as int <= bound as int <= elems.Length
    ensures s.valid && s.managed && s.buf == elems && s.mine == {} && !s.OwnsItsBuffer()
  {
    var rc;
    s, rc := Sequence.Wrap(elems, length, bound);
    var empty := Sequence.New(UNBOUNDED);
    s.Assign(empty, true);
  }

  /** s is `part` over and over again. */
  ghost predicate Repeats<T>(s: seq<T>, part: seq<T>) {
    part <= s && forall i :: |part| <= i < |s| ==> s[i] == s[i - |part|]
  }

  lemma RepeatsMore<T>(s: seq<T>, part: seq<T>, elem: T)
    requires Repeats(s, part) && part != [] && elem == s[|s| - |part|]
    ensures Repeats(s + [elem], part)
  {
  }

  lemma RepeatsOnce<T>(s: seq<T>)
    ensures Repeats(s, s)
  {
  }

  /**
   Any number of appends to a fresh managed sequence, bounded or not and whether or not allocations
   succeed, copy fewer than twice as many elements as the sequence holds.
   */
  method AppendMany<T(0)>(s: Sequence<T>, elems: seq<T>, memory: nat -> bool)
    requires s.Valid() && s.valid && s.managed && s.Content() == [] && s.Amortized()
    requires Fits(|elems|, s.bound) <= s.Limit() as int
    modifies s, s.buf
    ensures s.Valid() && s.valid && s.bound == old(s.bound) && (s.buf == old(s.buf) || fresh(s.buf))
    ensures |s.Content()| <= |elems| && (s.copied == 0 || s.copied < 2 * |s.Content()|)
    ensures (forall i :: memory(i)) ==> s.Content() == elems[..Fits(|elems|, s.bound)]
  {
    hide Sequence.Valid, Sequence.Amortized, Sequence.Content, Sequence.Limit;
    s.CopiedFew();
    ghost var bound, limit := s.bound, s.Limit();
    var i := 0;
    while i < |elems|
      invariant i <= |elems| && s.Valid() && s.valid && s.managed && s.bound == bound && s.Amortized()
      invariant |s.Content()| <= i && s.capacity <= bound && s.Limit() == limit && (s.buf == old(s.buf) || fresh(s.buf))
      invariant (forall k :: memory(k)) ==> s.Content() == elems[..Fits(i, bound)]
    {
      s.BelowLimit();
      var rc := s.AppendElem(elems[i], memory(i));
      assert elems[..i + 1] == elems[..i] + [elems[i]];
      s.CopiedFew();
      i := i + 1;
    }
    s.CopiedFew();
  }
}
