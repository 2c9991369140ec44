/** Value types and byte-string operations shared by the models. */
module Basics {

  newtype Byte = x: int | 0 <= x < 256

  /** Components of an absolute path, outermost first. */
  type Path = seq<string>

  datatype Option<+T> = None | Some(value: T)

  /** sshpp::Result: a value, or an error that carries its numeric code.
      Code 0 is a legal error code: it is what a failed SFTP call leaves behind
      when the session's last status was SSH_FX_OK. */
  datatype Result<+T> = Ok(value: T) | Err(code: nat)

  function Min(a: int, b: int): int {
    if a <= b then a else b
  }

  function Max(a: int, b: int): int {
    if a >= b then a else b
  }

  /** The part of s in [offset, offset + len) that exists. */
  function Slice<T>(s: seq<T>, offset: nat, len: nat): (r: seq<T>)
    ensures |r| == if offset >= |s| then 0 else Min(len, |s| - offset)
  {
    if offset >= |s| then [] else s[offset..Min(offset + len, |s|)]
  }

  /** Everything of s from offset on. */
  function Suffix<T>(s: seq<T>, offset: nat): seq<T> {
    if offset >= |s| then [] else s[offset..]
  }

  lemma SliceAppend<T>(s: seq<T>, offset: nat, a: nat, b: nat)
    ensures Slice(s, offset, a) + Slice(s, offset + a, b) == Slice(s, offset, a + b)
  {
  }

  /** pwrite(2): data replaces the bytes at offset; a hole before it reads as zeros. */
  function Overlay(content: seq<Byte>, offset: nat, data: seq<Byte>): (r: seq<Byte>)
    ensures |r| == if data == [] then |content| else Max(|content|, offset + |data|)
    ensures forall i :: 0 <= i < |r| ==>
      r[i] == if offset <= i < offset + |data| then data[i - offset]
              else if i < |content| then content[i] else 0
  {
    if data == [] then content
    else
      seq(Max(|content|, offset + |data|), i requires 0 <= i =>
        if offset <= i < offset + |data| then data[i - offset]
        else if i < |content| then content[i] else 0)
  }

  /** Writing two adjacent pieces is writing their concatenation. */
  lemma OverlayAppend(content: seq<Byte>, offset: nat, a: seq<Byte>, b: seq<Byte>)
    ensures Overlay(Overlay(content, offset, a), offset + |a|, b) == Overlay(content, offset, a + b)
  {
    var once, twice := Overlay(content, offset, a + b), Overlay(Overlay(content, offset, a), offset + |a|, b);
    assert a + b == [] <==> a == [] && b == [];
    assert |once| == |twice|;
    forall i | 0 <= i < |once| ensures once[i] == twice[i] {
      assert offset <= i < offset + |a| + |b| ==>
        (a + b)[i - offset] == if i < offset + |a| then a[i - offset] else b[i - offset - |a|];
    }
  }
}
