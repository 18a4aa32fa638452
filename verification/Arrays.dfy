/** Array.Copy, and the rotation that both stacks of the compiler make of it (CPU.cs:129-135,
  * WordBuilder.cs:101-107).
  */
module Arrays {
  import opened Basics

  /** Cells dst to dst + count have become those from src on. */
  function Copied(s: seq<int>, src: nat, dst: nat, count: nat): (r: seq<int>)
    requires src + count <= |s| && dst + count <= |s|
    ensures |r| == |s|
  {
    s[..dst] + s[src..src + count] + s[dst + count..]
  }

  lemma CopyRotates(s: seq<int>, top: nat, depth: nat)
    requires depth <= top < |s|
    ensures var r := Copied(s, top - depth + 1, top - depth, depth)[top := s[top - depth]];
      r[..top + 1] == Rotated(s[..top + 1], depth) && r[top + 1..] == s[top + 1..]
  {
    var k := top - depth;
    var low, x, high := s[..k], [s[k]], s[k + 1..top + 1];
    var c := Copied(s, k + 1, k, depth);
    assert c == low + high + s[top..];
    assert c[top := s[k]] == low + high + x + s[top + 1..];
    assert c[top := s[k]][..top + 1] == low + high + x;
    var t := s[..top + 1];
    assert t[..k] == low && t[k + 1..] == high && t[k] == s[k];
  }

  /** Array.Copy inside one array, element by element: `count` cells from src to dst. */
  method CopyWithin(buf: array<int>, src: nat, dst: nat, count: nat)
    requires src + count <= buf.Length && dst + count <= buf.Length
    modifies buf
    ensures buf[..] == Copied(old(buf[..]), src, dst, count)
  {
    var cells := buf[src..src + count];
    for i := 0 to count
      invariant forall j {:trigger buf[j]} | 0 <= j < buf.Length ::
        buf[j] == if dst <= j < dst + i then cells[j - dst] else old(buf[j])
    {
      buf[dst + i] := cells[i];
    }
  }

  method RotateUp(buf: array<int>, top: nat, depth: nat)
    requires depth <= top < buf.Length
    modifies buf
    ensures buf[..top + 1] == Rotated(old(buf[..top + 1]), depth) && buf[top + 1..] == old(buf[top + 1..])
  {
    hide Rotated, Copied;
    ghost var s := buf[..];
    CopyRotates(s, top, depth);
    var v := buf[top - depth];
    CopyWithin(buf, top - depth + 1, top - depth, depth);
    buf[top] := v;
    assert buf[..] == Copied(s, top - depth + 1, top - depth, depth)[top := v] && s[..top + 1] == old(buf[..top + 1]);
    assert buf[..top + 1] == buf[..][..top + 1] && buf[top + 1..] == buf[..][top + 1..];
  }
}
