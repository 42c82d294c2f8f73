/** The cursor buffer of naf/sbuf.c. */
module Sbuf {
  import opened Basics
  import opened Wire

  const DEFAULT_LEN := 512

  class Sbuf {
    var buf: array<byte>  // its length is sbuf_buflen
    var pos: nat
    const grow: bool      // AUTORESIZE
    var overrun: bool     // the source has written past the end of the buffer

    ghost predicate Valid()
      reads this
    {
      pos <= buf.Length < 0x1_0000
    }

    /** The buffer seen by a reader: what is left. */
    ghost function Rest(): Bytes
      requires Valid()
      reads this, buf
    {
      buf[pos..]
    }

    /** The buffer seen by a writer. */
    ghost function View(): (o: Out)
      requires Valid()
      ensures o.Valid()
      reads this, buf
    {
      Out(buf[..pos], buf.Length, grow, overrun)
    }

    /** naf_sbuf_init on a buffer of the caller's */
    constructor Wrap(b: array<byte>)
      requires b.Length < 0x1_0000
      ensures Valid() && buf == b && pos == 0 && !grow && !overrun
    {
      buf, pos, grow, overrun := b, 0, false, false;
    }

    /** naf_sbuf_init without a buffer: allocates one that can grow */
    constructor New(len: u16)
      ensures Valid() && fresh(buf)
      ensures View() == Out([], if len == 0 then DEFAULT_LEN else len, true, false)
    {
      buf := new byte[if len == 0 then DEFAULT_LEN else len];
      pos, grow, overrun := 0, true, false;
    }

    function Remaining(): int
      reads this
    {
      buf.Length - pos
    }

    /** The loop of naf_sbuf__extendbuf, on 16-bit lengths */
    static method NewLen(len: u16, needed: u16) returns (nbuflen: u16)
      ensures nbuflen == GrownLen(len, needed)
    {
      hide RoundUp;
      nbuflen := len;
      var n: u16 := needed;
      while n > BLOCK
        invariant (nbuflen + RoundUp(n)) % W16 == (len + RoundUp(needed)) % W16
      {
        RoundUpStep(n);
        nbuflen, n := (nbuflen + BLOCK) % W16, n - BLOCK;
      }
      RoundUpLast(n);
      if n > 0 {
        nbuflen := (nbuflen + BLOCK) % W16;
      }
      assert needed % W16 == needed;
    }

    /** naf_sbuf__extendbuf: adds the request rounded up to 256, up to 32768 in all, in 16 bits. */
    method Extend(needed: u16) returns (ok: bool)
      requires Valid() && !overrun
      modifies this`buf, this`overrun
      ensures Valid()
      ensures ok == (grow && GrownLen(old(buf.Length), needed) <= MAXLEN)
      ensures overrun == (ok && GrownLen(old(buf.Length), needed) < old(buf.Length))
      ensures !ok || overrun ==> buf == old(buf)
      ensures ok && !overrun ==>
        fresh(buf) && buf.Length == GrownLen(old(buf.Length), needed) && buf[..old(buf.Length)] == old(buf[..])
    {
      if !grow {
        return false;
      }
      hide GrownLen;
      var nbuflen := NewLen(buf.Length, needed);
      if nbuflen > MAXLEN {
        return false;
      }
      if nbuflen < buf.Length {
        overrun := true;  // the copy runs past the new buffer
        return true;
      }
      var nbuf := new byte[nbuflen];
      forall i | 0 <= i < buf.Length {
        nbuf[i] := buf[i];
      }
      assert nbuf[..buf.Length] == buf[..];
      buf := nbuf;
      return true;
    }

    /** naf_sbuf_putraw */
    method PutRaw(s: Bytes) returns (n: int)
      requires Valid()
      modifies this, buf
      ensures Valid() && View() == Put(old(View()), s)
      ensures n == if CanPut(old(View()), |s|) then |s| else 0
      ensures (buf == old(buf) || fresh(buf)) && (!grow || |s| <= old(Remaining()) ==> buf == old(buf))
      ensures pos >= old(pos) && (buf == old(buf) ==> forall j | pos <= j < buf.Length :: buf[j] == old(buf[j]))
    {
      hide GrownLen;
      if overrun {
        return 0;
      }
      GrownMod(buf.Length, |s|);
      if Remaining() < |s| {
        var ok := Extend(|s| % W16);
        if !ok || overrun {
          return 0;
        }
        if Remaining() < |s| {
          overrun := true;  // the length had wrapped: the bytes run past the buffer
          return 0;
        }
      }
      ghost var before := buf[..pos];
      forall i | 0 <= i < |s| {
        buf[pos + i] := s[i];
      }
      pos := pos + |s|;
      assert buf[..pos] == before + s;
      return |s|;
    }

    /** naf_sbuf_put8 */
    method Put8(v: byte) returns (n: int)
      requires Valid()
      modifies this, buf
      ensures Valid() && View() == Put(old(View()), [v])
      ensures n == if CanPut(old(View()), 1) then 1 else 0
      ensures (buf == old(buf) || fresh(buf)) && (!grow || 1 <= old(Remaining()) ==> buf == old(buf))
      ensures pos >= old(pos) && (buf == old(buf) ==> forall j | pos <= j < buf.Length :: buf[j] == old(buf[j]))
    {
      n := PutRaw([v]);
    }

    /** naf_sbuf_put16 */
    method Put16(v: u16) returns (n: int)
      requires Valid()
      modifies this, buf
      ensures Valid() && View() == Put(old(View()), Be16(v))
      ensures n == if CanPut(old(View()), 2) then 2 else 0
      ensures (buf == old(buf) || fresh(buf)) && (!grow || 2 <= old(Remaining()) ==> buf == old(buf))
      ensures pos >= old(pos) && (buf == old(buf) ==> forall j | pos <= j < buf.Length :: buf[j] == old(buf[j]))
    {
      n := PutRaw(Be16(v));
    }

    /** naf_sbuf_put32 */
    method Put32(v: u32) returns (n: int)
      requires Valid()
      modifies this, buf
      ensures Valid() && View() == Put(old(View()), Be32(v))
      ensures n == if CanPut(old(View()), 4) then 4 else 0
      ensures (buf == old(buf) || fresh(buf)) && (!grow || 4 <= old(Remaining()) ==> buf == old(buf))
      ensures pos >= old(pos) && (buf == old(buf) ==> forall j | pos <= j < buf.Length :: buf[j] == old(buf[j]))
    {
      n := PutRaw(Be32(v));
    }

    /** naf_sbuf_get8 */
    method Get8() returns (v: byte)
      requires Valid()
      modifies this`pos
      ensures Valid() && (v, Rest()) == Take8(old(Rest()))
    {
      if Remaining() < 1 {
        return 0;
      }
      pos := pos + 1;
      return buf[pos - 1];
    }

    /** naf_sbuf_get16 */
    method Get16() returns (v: u16)
      requires Valid()
      modifies this`pos
      ensures Valid() && (v, Rest()) == Take16(old(Rest()))
    {
      if Remaining() < 2 {
        return 0;
      }
      pos := pos + 2;
      return buf[pos - 2] as int * 0x100 + buf[pos - 1];
    }

    /** naf_sbuf_get32 */
    method Get32() returns (v: u32)
      requires Valid()
      modifies this`pos
      ensures Valid() && (v, Rest()) == Take32(old(Rest()))
    {
      if Remaining() < 4 {
        return 0;
      }
      pos := pos + 4;
      assert old(Rest())[2..][..2] == buf[pos - 2..pos];
      return ((buf[pos - 4] as int * 0x100 + buf[pos - 3]) * 0x100 + buf[pos - 2]) * 0x100 + buf[pos - 1];
    }

    /** naf_sbuf_getraw: all `len` bytes, or none and the cursor stays */
    method GetRaw(len: u16) returns (r: Option<Bytes>)
      requires Valid()
      modifies this`pos
      ensures Valid()
      ensures r == if len <= |old(Rest())| then Some(old(Rest())[..len]) else None
      ensures Rest() == if len <= |old(Rest())| then old(Rest())[len..] else old(Rest())
    {
      if Remaining() < len {
        return None;
      }
      pos := pos + len;
      assert buf[pos - len..pos] == old(Rest())[..len];
      return Some(buf[pos - len..pos]);
    }

    /** naf_sbuf_advance on a buffer that does not grow */
    method Skip(n: u16) returns (ok: bool)
      requires Valid() && !grow
      modifies this`pos
      ensures Valid() && ok == (n <= |old(Rest())|)
      ensures Rest() == if ok then old(Rest())[n..] else old(Rest())
    {
      ok := Remaining() >= n;
      if ok {
        pos := pos + n;
      }
    }
  }
}
