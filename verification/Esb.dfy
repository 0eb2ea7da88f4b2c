/** The extensible string buffer of dd_esb.c: a growable, or caller-supplied,
    NUL-terminated char buffer. */
module EsbBuffer {
  import opened CText

  const BAD_CALL := "ESBERR_appendn bad call"

  /** All of text, or what a rigid buffer of the given size holds of it. */
  function Clip(rigid: bool, size: nat, text: string): (r: string)
    requires rigid ==> size > 0
    ensures r <= text && |r| == if rigid then Min(|text|, size - 1) else |text|
  {
    if rigid then Prefix(text, size - 1) else text
  }

  class Esb {
    var str: array?<char>
    var allocatedSize: nat
    var usedBytes: nat
    var fixed: bool
    var rigid: bool
    /** Everything appended since construction or the last empty. */
    ghost var appended: string

    /** The buffer is NUL-terminated within its allocation and holds what was
        appended: all of it, or as much as fits when it is rigid. */
    ghost predicate Valid()
      reads this, str
    {
      && (allocatedSize == 0 ==> str == null && usedBytes == 0 && !fixed)
      && (allocatedSize > 0 ==>
        str != null && allocatedSize <= str.Length && usedBytes < allocatedSize && str[usedBytes] == NUL)
      && (rigid ==> fixed)
      && Contents() == Clip(rigid, allocatedSize, appended)
    }

    /** The characters before the terminating NUL. */
    ghost function Contents(): string
      reads this, str
      requires str != null ==> usedBytes <= str.Length
    {
      if str == null then "" else str[..usedBytes]
    }

    /** The buffer never shrinks, a rigid one never moves, and a caller's
        buffer is given up only for a fresh one. */
    twostate predicate Grown()
      reads this
    {
      && rigid == old(rigid)
      && allocatedSize >= old(allocatedSize)
      && (str == old(str) || (str != null && fresh(str) && !fixed))
      && (str == old(str) && old(allocatedSize) > 0 ==>
        allocatedSize == old(allocatedSize) && fixed == old(fixed))
      && (rigid ==> str == old(str))
    }

    constructor ()
      ensures Valid() && appended == "" && allocatedSize == 0 && !rigid && !fixed
    {
      str, allocatedSize, usedBytes, fixed, rigid, appended := null, 0, 0, false, false, "";
    }

    constructor Fixed(buf: array<char>, buflen: nat)
      requires buflen <= buf.Length
      modifies buf
      ensures Valid() && appended == "" && !rigid
      ensures buflen > 0 ==> str == buf && allocatedSize == buflen && fixed
      ensures buflen == 0 ==> str == null && allocatedSize == 0 && !fixed
      ensures forall i :: 1 <= i < buf.Length ==> buf[i] == old(buf[i])
    {
      str, allocatedSize, usedBytes, fixed, rigid, appended := null, 0, 0, false, false, "";
      new;
      if buflen < 1 {
        return;
      }
      str := buf;
      str[0] := NUL;
      allocatedSize := buflen;
      fixed := true;
    }

    /** esb_destructor: back to the freshly constructed state. */
    method Destroy()
      modifies this
      ensures Valid() && appended == "" && allocatedSize == 0 && str == null && !rigid && !fixed
    {
      str, allocatedSize, usedBytes, fixed, rigid, appended := null, 0, 0, false, false, "";
    }

    /** init_esb_string, with allocation succeeding. */
    method InitString(minLen: nat, allocSize: nat)
      requires Valid() && allocSize >= 1
      modifies this
      ensures Valid() && appended == old(appended) && Grown()
      ensures old(allocatedSize) > 0 ==> allocatedSize == old(allocatedSize)
      ensures old(allocatedSize) == 0 ==>
        fresh(str) && allocatedSize == if minLen < allocSize then allocSize else minLen + 1
    {
      if allocatedSize > 0 {
        return;
      }
      var size := minLen;
      if size < allocSize {
        size := allocSize;
      } else {
        size := size + 1;
      }
      var d := new char[size];
      usedBytes := 0;
      d[0] := NUL;
      str := d;
      allocatedSize := size;
    }

    /** esb_allocate_more: len more bytes, contents unchanged. */
    method AllocateMore(len: nat, allocSize: nat)
      requires Valid() && allocSize >= 1
      modifies this
      ensures Valid() && appended == old(appended) && Grown()
      ensures !rigid ==> allocatedSize >= Max(old(allocatedSize) + len, allocSize) && !fixed
    {
      if rigid {
        return;
      }
      if allocatedSize == 0 {
        InitString(allocSize, allocSize);
      }
      var newSize := allocatedSize + len;
      if newSize < allocSize {
        newSize := allocSize;
      }
      // malloc and memcpy for a caller's buffer, realloc otherwise: either
      // way the bytes up to and including the NUL are carried over.
      var newd := new char[newSize];
      var bytes := if fixed then usedBytes + 1 else allocatedSize;
      forall i | 0 <= i < bytes {
        newd[i] := str[i];
      }
      assert newd[..usedBytes] == str[..usedBytes];
      str := newd;
      allocatedSize := newSize;
      fixed := false;
    }

    /** esb_force_allocation: at least minLen bytes past the usedBytes ones. */
    method ForceAllocation(minLen: nat, allocSize: nat)
      requires Valid() && allocSize >= 1
      modifies this
      ensures Valid() && appended == old(appended) && Grown()
      ensures !rigid ==> allocatedSize >= usedBytes + minLen
    {
      if rigid {
        return;
      }
      if allocatedSize == 0 {
        InitString(allocSize, allocSize);
      }
      var targetLen := usedBytes + minLen;
      if allocatedSize < targetLen {
        AllocateMore(targetLen - allocatedSize, allocSize);
      }
    }

    /** The room an append of len characters may use: len, except in a rigid
        buffer with less than that left. */
    method Reserve(len: nat, allocSize: nat) returns (take: nat)
      requires Valid() && allocSize >= 1
      modifies this
      ensures Valid() && appended == old(appended) && Grown()
      ensures usedBytes == old(usedBytes) && usedBytes + take < allocatedSize
      ensures take == if rigid then Min(len, allocatedSize - usedBytes - 1) else len
    {
      take := len;
      if allocatedSize == 0 {
        InitString(if len >= allocSize then len else allocSize, allocSize);
      }
      var remaining := allocatedSize - usedBytes - 1;
      if remaining <= len {
        if rigid && take > remaining {
          take := remaining;
        } else {
          AllocateMore(len - remaining, allocSize);
        }
      }
    }

    /** The memcpy and the explicit terminator. */
    method Store(s: string, ghost len: nat, take: nat)
      requires Valid() && take <= len <= |s| && usedBytes + take < allocatedSize
      modifies this`usedBytes, this`appended, str
      requires !rigid ==> take == len
      requires rigid ==> take == Min(len, allocatedSize - usedBytes - 1)
      ensures Valid() && appended == old(appended) + s[..len]
    {
      forall i | 0 <= i < take {
        str[usedBytes + i] := s[i];
      }
      usedBytes := usedBytes + take;
      str[usedBytes] := NUL;
      assert str[..usedBytes] == old(str[..usedBytes]) + s[..take];
      appended := appended + s[..len];
    }

    /** esb_appendn_internal: the first len characters of s. */
    method AppendnInternal(s: string, len: nat, allocSize: nat)
      requires Valid() && allocSize >= 1 && len <= |s|
      modifies this, str
      ensures Valid() && appended == old(appended) + s[..len] && Grown()
    {
      var take := Reserve(len, allocSize);
      if take == 0 {
        appended := appended + s[..len];
        return;
      }
      Store(s, len, take);
    }

    /** esb_appendn: rejects a length beyond the string's own. */
    method Appendn(s: string, len: nat, allocSize: nat)
      requires Valid() && allocSize >= 1
      modifies this, str
      ensures Valid() && Grown()
      ensures appended == old(appended) + if StrLen(s) < len then BAD_CALL else s[..len]
    {
      if StrLen(s) < len {
        AppendnInternal(BAD_CALL, |BAD_CALL|, allocSize);
        return;
      }
      AppendnInternal(s, len, allocSize);
    }

    /** esb_append; None stands for NULL. */
    method Append(s: Option<string>, allocSize: nat)
      requires Valid() && allocSize >= 1
      modifies this, str
      ensures Valid() && Grown()
      ensures appended == old(appended) + if s.None? then "" else s.value[..StrLen(s.value)]
    {
      if s.Some? {
        var len := StrLen(s.value);
        if len > 0 {
          AppendnInternal(s.value, len, allocSize);
        }
      }
    }

    /** esb_get_string. */
    method GetString(allocSize: nat) returns (s: array<char>)
      requires Valid() && allocSize >= 1
      modifies this
      ensures Valid() && appended == old(appended) && Grown()
      ensures s == str && usedBytes < s.Length && s[usedBytes] == NUL
      ensures IsCString(Contents()) ==> StrLen(s[..]) == usedBytes
    {
      if allocatedSize == 0 {
        InitString(allocSize, allocSize);
      }
      s := str;
      if IsCString(str[..usedBytes]) {
        StrLenAt(s[..], usedBytes);
      }
    }

    /** esb_empty_string. */
    method EmptyString(allocSize: nat)
      requires Valid() && allocSize >= 1
      modifies this, str
      ensures Valid() && appended == "" && Contents() == "" && Grown()
    {
      if allocatedSize == 0 {
        InitString(allocSize, allocSize);
      }
      usedBytes := 0;
      str[0] := NUL;
      appended := "";
    }

    /** esb_string_len. */
    function StringLen(): (n: nat)
      reads this, str
      requires Valid()
      ensures n == |Contents()|
    {
      usedBytes
    }
  }
}
