/** The string views of CflatString.h: the `cflat_sv_from_*` conversions,
    the `cflat_str_clone_*` copies, `cflat_sv_find_substring_*` and
    `cflat_path_name_*`.

    Memory is a byte sequence `mem`; address `a >= 1` holds `mem[a - 1]`
    and address 0 is NULL, so the pointer comparison of `cflat_path_name_sv`
    is a comparison of naturals.  A view is a data pointer and a length. */
module Strings {
  import opened Words
  import opened Core
  import Kmp
  import Arena
  import Arrays

  /** `CflatStringView`: `data` and `length`. */
  datatype View = View(data: nat, length: nat)

  /** `(CflatStringView){0}`: NULL data, no bytes. */
  const ZeroView := View(0, 0)

  /** The view's bytes lie in memory; the NULL view is empty. */
  predicate Valid(mem: seq<u8>, v: View) {
    if v.data == 0 then v.length == 0 else v.data - 1 + v.length <= |mem|
  }

  /** The bytes a valid view shows. */
  function Bytes(mem: seq<u8>, v: View): (b: seq<u8>)
    requires Valid(mem, v)
    ensures |b| == v.length
  {
    if v.data == 0 then [] else mem[v.data - 1..v.data - 1 + v.length]
  }

  /** A `CflatString` whose bytes start at `data`: `length`, then the
      bytes. */
  datatype Str = Str(data: nat, length: nat)

  /** A `CflatStringBuilder` (a dynamic array of char): `count` bytes in
      use of `capacity`. */
  datatype Builder = Builder(data: nat, count: nat, capacity: nat)

  /* ---------------------------------------------------------------------- */
  /*  Conversions                                                            */
  /* ---------------------------------------------------------------------- */

  /** A NUL byte at or after index `i`. */
  predicate Terminated(mem: seq<u8>, i: nat) {
    exists k :: i <= k < |mem| && mem[k] == 0
  }

  /** `strlen` of the bytes from index `i`. */
  function StrLen(mem: seq<u8>, i: nat): (n: nat)
    requires Terminated(mem, i)
    ensures i + n < |mem| && mem[i + n] == 0
    ensures forall k :: i <= k < i + n ==> mem[k] != 0
    decreases |mem| - i
  {
    if mem[i] == 0 then 0
    else
      assert Terminated(mem, i + 1) by {
        var k :| i <= k < |mem| && mem[k] == 0;
        assert k != i;
      }
      1 + StrLen(mem, i + 1)
  }

  /** `cflat_sv_from_cstr`: the bytes up to the terminating NUL. */
  function SvFromCstr(mem: seq<u8>, cstr: nat): (v: View)
    requires cstr >= 1 && Terminated(mem, cstr - 1)
    ensures Valid(mem, v) && v.data == cstr
    ensures 0 !in Bytes(mem, v) && mem[cstr - 1 + v.length] == 0
  {
    View(cstr, StrLen(mem, cstr - 1))
  }

  /** `cflat_sv_from_str`: the string's data and length. */
  function SvFromStr(s: Str): View {
    View(s.data, s.length)
  }

  /** `cflat_sv_from_sb`: the builder's data and count (not its
      capacity). */
  function SvFromSb(b: Builder): View {
    View(b.data, b.count)
  }

  /** `cflat_sv_from_sv`: the view itself. */
  function SvFromSv(v: View): View {
    v
  }

  /* ---------------------------------------------------------------------- */
  /*  Copies                                                                 */
  /* ---------------------------------------------------------------------- */

  /** A `CflatString`'s contents: its length and the bytes after the
      header, which end in a NUL the length does not count. */
  datatype Clone = Clone(length: nat, data: seq<u8>)

  /** What a clone of `src` holds after its header. */
  function StrClone(src: seq<u8>): (r: Clone)
    ensures |r.data| == r.length + 1
  {
    Clone(|src|, src + [0])
  }

  /** A clone keeps every byte and its count, and read back as a C string
      it gives the source exactly when the source holds no NUL; otherwise
      it stops at the first one. */
  lemma StrCloneSpec(src: seq<u8>)
    ensures StrClone(src).length == |src|
    ensures StrClone(src).data[..|src|] == src && StrClone(src).data[|src|] == 0
    ensures Terminated(StrClone(src).data, 0)
    ensures 0 !in src <==> StrLen(StrClone(src).data, 0) == |src|
  {
    var d := StrClone(src).data;
    assert d[..|src|] == src;
    assert Terminated(d, 0) by {
      assert d[|src|] == 0;
    }
    var n := StrLen(d, 0);
    if 0 in src {
      var k :| 0 <= k < |src| && src[k] == 0;
      assert d[k] == 0;
    }
  }

  /** `sizeof(CflatString) + length + 1` in `usize`: the header is the
      `usize length` of `cflat_define_array(char, ...)`. */
  function CloneSize(length: nat): u64 {
    (Arrays.Header + length + 1) % WordModulus
  }

  /** The bytes a clone stores from its address: the length (little
      endian), the bytes, a NUL. */
  function CloneImage(src: seq<u8>): (bs: seq<u8>)
    ensures |bs| == Arrays.Header + |src| + 1
  {
    Arrays.LeBytes(|src|, Arrays.Header) + StrClone(src).data
  }

  /** The `CflatString` at `n` holds `src`: its header reads `|src|`, the
      bytes after it are `src`, and a NUL follows. */
  predicate Holds(n: Arrays.NewArray, src: seq<u8>) {
    && n.block in n.arena.blocks
    && var mem := n.arena.blocks[n.block].mem;
       && n.offset + Arrays.Header + |src| < |mem|
       && Arrays.LengthAt(mem, n.offset + 1) == |src|
       && mem[n.offset + Arrays.Header..n.offset + Arrays.Header + |src|] == src
       && mem[n.offset + Arrays.Header + |src|] == 0
  }

  /** The body the four `cflat_str_clone_*` share: push `sizeof(CflatString)
      + length + 1` bytes with the default options, then store the length,
      copy the bytes and add a NUL.  A NULL result faults at the length
      store, and so does a store that runs past the block. */
  function StrCloneIn(a: Arena.Arena, src: seq<u8>): (r: Outcome<Arrays.NewArray>)
    requires Arena.Linked(a) && |src| < WordModulus
    ensures !r.Hangs?
    ensures var o := Arena.Push(a, CloneSize(|src|), Arena.AllocOpt(0, false));
            && (!o.Placed? ==> r.Faults?)
            && (r.Done? ==>
                  && o.Placed? && r.value.block == o.block && r.value.offset == o.offset
                  && r.value.arena == o.arena.(blocks := r.value.arena.blocks)
                  && Holds(r.value, src))
  {
    var image := CloneImage(src);
    match Arena.Push(a, CloneSize(|src|), Arena.AllocOpt(0, false))
    case Placed(b, id, offset, _) =>
      var r := Arrays.StoreBytes(b, id, offset, image);
      if r.Done? then
        ImageHolds(r.value.arena.blocks[id].mem, offset, src);
        r
      else r
    case Refused(_) => Faults
    case Fault => Faults
  }

  /** Memory holding a clone's image holds the clone. */
  lemma ImageHolds(mem: seq<u8>, offset: nat, src: seq<u8>)
    requires |src| < WordModulus && offset + |CloneImage(src)| <= |mem|
    requires mem[offset..offset + |CloneImage(src)|] == CloneImage(src)
    ensures Arrays.LengthAt(mem, offset + 1) == |src|
    ensures mem[offset + Arrays.Header..offset + Arrays.Header + |src|] == src
    ensures mem[offset + Arrays.Header + |src|] == 0
  {
    var image := CloneImage(src);
    var h := Arrays.Header;
    Pow2Of64();
    assert h * 8 == 64;
    Arrays.LeRoundTrip(|src|, h);
    assert mem[offset..offset + h] == image[..h];
    assert mem[offset + h..offset + h + |src|] == image[h..h + |src|];
    assert mem[offset + h + |src|] == image[h + |src|];
  }

  /** On a well-formed arena whose blocks all have something committed, a
      clone whose size does not wrap faults only when the push returns
      NULL, and it changes no byte but its own. */
  lemma StrCloneInSpec(a: Arena.Arena, src: seq<u8>)
    requires Arena.Valid(a) && Arena.Committed(a) && Arrays.Header + |src| + 1 < WordModulus
    requires Arena.Sane(a, CloneSize(|src|), Arena.AllocOpt(0, false))
    ensures var o := Arena.Push(a, CloneSize(|src|), Arena.AllocOpt(0, false));
            && !o.Fault?
            && (StrCloneIn(a, src).Done? <==> o.Placed?)
            && (o.Placed? ==>
                  var m := StrCloneIn(a, src).value.arena.blocks[o.block].mem;
                  var before := o.arena.blocks[o.block].mem;
                  |m| == |before| && forall k :: 0 <= k < |m| && !(o.offset <= k < o.offset + |CloneImage(src)|) ==> m[k] == before[k])
  {
    var opt := Arena.AllocOpt(0, false);
    var size := CloneSize(|src|);
    Arena.PushFaults(a, size, opt);
    ModSmall(Arrays.Header + |src| + 1, WordModulus);
    if Arena.Push(a, size, opt).Placed? {
      Arena.PlacedInside(a, size, opt);
    }
  }

  /** A source of `2^64 - 9` bytes or more wraps the size, and the clone
      faults: the bytes cannot fit the block. */
  lemma StrCloneInWraps(a: Arena.Arena, src: seq<u8>)
    requires Arena.Valid(a) && |src| < WordModulus && Arrays.Header + |src| + 1 >= WordModulus
    requires Arena.Sane(a, CloneSize(|src|), Arena.AllocOpt(0, false))
    ensures CloneSize(|src|) < Arrays.Header + 1 && StrCloneIn(a, src).Faults?
  {
    var opt := Arena.AllocOpt(0, false);
    var size := CloneSize(|src|);
    assert size == Arrays.Header + |src| + 1 - WordModulus;
    if Arena.Push(a, size, opt).Placed? {
      Arena.PlacedInside(a, size, opt);
    }
  }

  /** `cflat_str_clone_cstr`: the bytes up to the NUL. */
  function StrCloneCstr(a: Arena.Arena, mem: seq<u8>, cstr: nat): (r: Outcome<Arrays.NewArray>)
    requires Arena.Linked(a) && |mem| < WordModulus && cstr >= 1 && Terminated(mem, cstr - 1)
    ensures !r.Hangs? && (r.Done? ==> Holds(r.value, Bytes(mem, SvFromCstr(mem, cstr))))
  {
    StrCloneIn(a, Bytes(mem, SvFromCstr(mem, cstr)))
  }

  /** `cflat_str_clone_str`: the string's `length` bytes. */
  function StrCloneStr(a: Arena.Arena, mem: seq<u8>, s: Str): (r: Outcome<Arrays.NewArray>)
    requires Arena.Linked(a) && |mem| < WordModulus && Valid(mem, SvFromStr(s))
    ensures !r.Hangs? && (r.Done? ==> Holds(r.value, Bytes(mem, SvFromStr(s))))
  {
    StrCloneIn(a, Bytes(mem, SvFromStr(s)))
  }

  /** `cflat_str_clone_sb`: the `count` bytes in use. */
  function StrCloneSb(a: Arena.Arena, mem: seq<u8>, b: Builder): (r: Outcome<Arrays.NewArray>)
    requires Arena.Linked(a) && |mem| < WordModulus && Valid(mem, SvFromSb(b))
    ensures !r.Hangs? && (r.Done? ==> Holds(r.value, Bytes(mem, SvFromSb(b))))
  {
    StrCloneIn(a, Bytes(mem, SvFromSb(b)))
  }

  /** `cflat_str_clone_sv`: the view's bytes. */
  function StrCloneSv(a: Arena.Arena, mem: seq<u8>, v: View): (r: Outcome<Arrays.NewArray>)
    requires Arena.Linked(a) && |mem| < WordModulus && Valid(mem, v)
    ensures !r.Hangs? && (r.Done? ==> Holds(r.value, Bytes(mem, v)))
  {
    StrCloneIn(a, Bytes(mem, v))
  }

  /** The `strlen` of bytes with a NUL at `i + n` and none before it. */
  lemma StrLenIs(mem: seq<u8>, i: nat, n: nat)
    requires i + n < |mem| && mem[i + n] == 0
    requires forall k :: i <= k < i + n ==> mem[k] != 0
    ensures Terminated(mem, i) && StrLen(mem, i) == n
  {
    assert Terminated(mem, i) by {
      assert mem[i + n] == 0;
    }
    var m := StrLen(mem, i);
    assert mem[i + m] == 0;
  }

  /** Cloning a C string and viewing the clone as a C string gives the same
      bytes back. */
  lemma CstrCloneRoundTrip(a: Arena.Arena, mem: seq<u8>, cstr: nat)
    requires Arena.Linked(a) && |mem| < WordModulus && cstr >= 1 && Terminated(mem, cstr - 1)
    requires StrCloneCstr(a, mem, cstr).Done?
    ensures var n := StrCloneCstr(a, mem, cstr).value;
            var m := n.arena.blocks[n.block].mem;
            var at := n.offset + Arrays.Header + 1;
            && Terminated(m, at - 1)
            && SvFromCstr(m, at).length == SvFromCstr(mem, cstr).length
            && Bytes(m, SvFromCstr(m, at)) == Bytes(mem, SvFromCstr(mem, cstr))
  {
    var src := Bytes(mem, SvFromCstr(mem, cstr));
    var n := StrCloneCstr(a, mem, cstr).value;
    var m := n.arena.blocks[n.block].mem;
    var lo := n.offset + Arrays.Header;
    forall k | lo <= k < lo + |src|
      ensures m[k] != 0
    {
      assert m[lo..lo + |src|][k - lo] == src[k - lo];
    }
    StrLenIs(m, lo, |src|);
  }

  /** Viewing a clone of a view as a `CflatString` gives the copied bytes. */
  lemma CloneViewRoundTrip(a: Arena.Arena, mem: seq<u8>, v: View)
    requires Arena.Linked(a) && |mem| < WordModulus && Valid(mem, v)
    requires StrCloneSv(a, mem, v).Done?
    ensures var n := StrCloneSv(a, mem, v).value;
            var m := n.arena.blocks[n.block].mem;
            var s := Str(n.offset + Arrays.Header + 1, Arrays.LengthAt(m, n.offset + 1));
            && Valid(m, SvFromStr(s)) && Bytes(m, SvFromStr(s)) == Bytes(mem, v)
  {
  }

  lemma SliceFront(x: seq<u8>, lo: nat, hi: nat, n: nat)
    requires lo + n <= hi <= |x|
    ensures x[lo..hi][..n] == x[lo..lo + n]
  {
  }

  lemma SliceBack(x: seq<u8>, lo: nat, hi: nat, i: nat)
    requires lo + i <= hi <= |x|
    ensures x[lo..hi][i..] == x[lo + i..hi]
  {
  }

  /* ---------------------------------------------------------------------- */
  /*  Searches                                                               */
  /* ---------------------------------------------------------------------- */

  /** `p` occurs nowhere in `text`. */
  ghost predicate Absent(text: seq<u8>, p: seq<u8>) {
    forall j: nat :: !Kmp.MatchAt(text, p, j)
  }

  /** What `cflat_sv_find_index_sv` promises for a pattern of 1 to 255
      bytes: -1 exactly when there is no occurrence, otherwise an
      occurrence, the first one when the scan is left at the first hit and
      the last one when it goes on. */
  lemma SearchSpec(text: seq<u8>, p: seq<u8>, leaves: bool)
    requires 1 <= |p| < Kmp.ByteCells
    ensures var r := Kmp.FindIndex(text, p, leaves);
            && (r == -1 <==> Absent(text, p))
            && (r != -1 ==> 0 <= r && Kmp.MatchAt(text, p, r))
            && (r != -1 && leaves ==> forall j: nat :: j < r ==> !Kmp.MatchAt(text, p, j))
            && (r != -1 && !leaves ==> forall j: nat :: r < j ==> !Kmp.MatchAt(text, p, j))
  {
    Kmp.FindIndexSpec(text, p);
    Kmp.FirstFromSpec(text, p, 0);
    Kmp.LastBelowSpec(text, p, |text| + 1);
  }

  /** `cflat_sv_find_substring_sv` for a non-empty pattern: the rest of
      the string from the occurrence the search reports, or the zero view.
      The `_cstr`, `_str` and `_sb` overloads convert the pattern with
      `SvFrom*` first. */
  function FindSubstring(mem: seq<u8>, s: View, pattern: seq<u8>, leaves: bool): (r: View)
    requires Valid(mem, s) && |pattern| >= 1
    ensures Valid(mem, r)
    ensures r.data != 0 ==> r.length >= |pattern|
  {
    var index := Kmp.FindIndex(Bytes(mem, s), pattern, leaves);
    if index < 0 then ZeroView else View(s.data + index, s.length - index)
  }

  /** The zero view exactly when the pattern does not occur; otherwise a
      view of the same memory that starts with the pattern and runs to the
      end of the string, at the first occurrence (or the last, when the
      scan goes on). */
  lemma FindSubstringSpec(mem: seq<u8>, s: View, pattern: seq<u8>, leaves: bool)
    requires Valid(mem, s) && 1 <= |pattern| < Kmp.ByteCells
    ensures var r := FindSubstring(mem, s, pattern, leaves);
            var text := Bytes(mem, s);
            && (r == ZeroView <==> Absent(text, pattern))
            && (r != ZeroView ==>
                  && s.data <= r.data && r.data + r.length == s.data + s.length
                  && Bytes(mem, r) == text[r.data - s.data..]
                  && Bytes(mem, r)[..|pattern|] == pattern
                  && (leaves ==> r.data - s.data == Kmp.First(text, pattern))
                  && (!leaves ==> r.data - s.data == Kmp.Last(text, pattern)))
  {
    var text := Bytes(mem, s);
    var index := Kmp.FindIndex(text, pattern, leaves);
    var r := FindSubstring(mem, s, pattern, leaves);
    FindSubstringWhere(mem, s, pattern, leaves);
    if index < 0 {
      assert r == ZeroView;
    } else {
      FoundBytes(mem, s, pattern, index);
      assert r == View(s.data + index, s.length - index);
      assert r.data != 0;
    }
  }

  /** Where the view of `FindSubstring` starts. */
  lemma FindSubstringWhere(mem: seq<u8>, s: View, pattern: seq<u8>, leaves: bool)
    requires Valid(mem, s) && 1 <= |pattern| < Kmp.ByteCells
    ensures var index := Kmp.FindIndex(Bytes(mem, s), pattern, leaves);
            var text := Bytes(mem, s);
            && (index == -1 <==> Absent(text, pattern))
            && (index != -1 ==> 0 <= index < s.length && s.data >= 1 && Kmp.MatchAt(text, pattern, index))
            && (leaves ==> index == Kmp.First(text, pattern))
            && (!leaves ==> index == Kmp.Last(text, pattern))
  {
    SearchSpec(Bytes(mem, s), pattern, leaves);
    Kmp.FindIndexSpec(Bytes(mem, s), pattern);
  }

  /** The rest of the string from an occurrence starts with the pattern. */
  lemma FoundBytes(mem: seq<u8>, s: View, pattern: seq<u8>, index: nat)
    requires Valid(mem, s) && s.data >= 1 && index < s.length
    requires Kmp.MatchAt(Bytes(mem, s), pattern, index)
    ensures var r := View(s.data + index, s.length - index);
            && Valid(mem, r)
            && Bytes(mem, r) == Bytes(mem, s)[index..]
            && Bytes(mem, r)[..|pattern|] == pattern
  {
    var text := Bytes(mem, s);
    SliceBack(mem, s.data - 1, s.data - 1 + s.length, index);
    SliceFront(text, index, |text|, |pattern|);
  }

  /** A pattern of 256 bytes or more is never found. */
  lemma FindSubstringLong(mem: seq<u8>, s: View, pattern: seq<u8>, leaves: bool)
    requires Valid(mem, s) && |pattern| >= Kmp.ByteCells
    ensures FindSubstring(mem, s, pattern, leaves) == ZeroView
  {
    Kmp.FindIndexSpec(Bytes(mem, s), pattern);
  }

  /* ---------------------------------------------------------------------- */
  /*  Path names                                                             */
  /* ---------------------------------------------------------------------- */

  const Slash: u8 := 47
  const Backslash: u8 := 92

  /** The view after a separator found by `FindSubstring`, or the whole
      path when none was (`p.data` is NULL). */
  function After(path: View, p: View): View
    requires p.data != 0 ==> p.length >= 1
  {
    if p.data != 0 then View(p.data + 1, p.length - 1) else path
  }

  /** `cflat_path_name_sv`.  On Windows it searches for `/` and for `\`
      and keeps the result with the higher address; elsewhere it searches
      for `/` only. */
  function PathName(mem: seq<u8>, path: View, windows: bool, leaves: bool): (r: View)
    requires Valid(mem, path)
    ensures Valid(mem, r)
  {
    if windows then
      var p1 := FindSubstring(mem, path, [Slash], leaves);
      var p2 := FindSubstring(mem, path, [Backslash], leaves);
      After(path, if p1.data > p2.data then p1 else p2)
    else
      After(path, FindSubstring(mem, path, [Slash], leaves))
  }

  /** A one-byte pattern occurs exactly where that byte is. */
  lemma ByteMatch(text: seq<u8>, c: u8, j: nat)
    ensures Kmp.MatchAt(text, [c], j) <==> j < |text| && text[j] == c
  {
    if j < |text| {
      assert text[j..j + 1] == [text[j]];
    }
  }

  /** A one-byte search: -1 exactly when the byte is absent, otherwise a
      position holding it with none before it (leaving at the first hit)
      or none after it (going on). */
  lemma ByteSearch(text: seq<u8>, c: u8, leaves: bool)
    ensures var r := Kmp.FindIndex(text, [c], leaves);
            && (r == -1 <==> c !in text)
            && (r != -1 ==> 0 <= r < |text| && text[r] == c)
            && (r != -1 && leaves ==> c !in text[..r])
            && (r != -1 && !leaves ==> c !in text[r + 1..])
  {
    var r := Kmp.FindIndex(text, [c], leaves);
    SearchSpec(text, [c], leaves);
    if c in text {
      var j :| 0 <= j < |text| && text[j] == c;
      ByteMatch(text, c, j);
    }
    if r != -1 {
      ByteMatch(text, c, r);
      if leaves && c in text[..r] {
        var j :| 0 <= j < r && text[..r][j] == c;
        ByteMatch(text, c, j);
      }
      if !leaves && c in text[r + 1..] {
        var j :| 0 <= j < |text| - (r + 1) && text[r + 1..][j] == c;
        ByteMatch(text, c, r + 1 + j);
      }
    }
  }

  /** The separator found in `path`, and what follows it. */
  lemma SeparatorView(mem: seq<u8>, path: View, c: u8, leaves: bool)
    requires Valid(mem, path)
    ensures var p := FindSubstring(mem, path, [c], leaves);
            var text := Bytes(mem, path);
            && (p.data == 0 <==> c !in text)
            && (p.data != 0 ==>
                  var k := p.data - path.data;
                  && path.data <= p.data && k < |text| && text[k] == c
                  && Bytes(mem, After(path, p)) == text[k + 1..]
                  && (leaves ==> c !in text[..k])
                  && (!leaves ==> c !in text[k + 1..]))
  {
    var text := Bytes(mem, path);
    var p := FindSubstring(mem, path, [c], leaves);
    ByteSearch(text, c, leaves);
    if p.data != 0 {
      var k := Kmp.FindIndex(text, [c], leaves);
      assert p == View(path.data + k, path.length - k);
      assert Bytes(mem, After(path, p)) == text[k + 1..];
    }
  }

  /** Away from Windows, a path without `/` is its own name; otherwise the
      name is what follows the first `/` when the scan is left at the first
      hit, and what follows the last one, with no `/` in it, when the scan
      goes on. */
  lemma PathNameSpec(mem: seq<u8>, path: View, leaves: bool)
    requires Valid(mem, path)
    ensures var text := Bytes(mem, path);
            var name := Bytes(mem, PathName(mem, path, false, leaves));
            && (Slash !in text ==> PathName(mem, path, false, leaves) == path)
            && (Slash in text ==>
                  exists k :: && 0 <= k < |text| && text[k] == Slash && name == text[k + 1..]
                              && (leaves ==> Slash !in text[..k]))
            && (!leaves ==> Slash !in name)
  {
    var text := Bytes(mem, path);
    var p := FindSubstring(mem, path, [Slash], leaves);
    SeparatorView(mem, path, Slash, leaves);
    if p.data != 0 {
      var k := p.data - path.data;
      assert text[k] == Slash && Bytes(mem, After(path, p)) == text[k + 1..];
    }
  }

  /** On Windows, with the scan going on, the name holds neither
      separator: it is what follows the last `/` or `\`, whichever is
      later. */
  lemma WindowsPathNameSpec(mem: seq<u8>, path: View)
    requires Valid(mem, path)
    ensures var text := Bytes(mem, path);
            var name := Bytes(mem, PathName(mem, path, true, false));
            && (Slash !in text && Backslash !in text ==> PathName(mem, path, true, false) == path)
            && Slash !in name && Backslash !in name
            && (Slash in text || Backslash in text ==> exists k :: 0 <= k < |text| && text[k] in {Slash, Backslash} && name == text[k + 1..])
  {
    var text := Bytes(mem, path);
    var p1 := FindSubstring(mem, path, [Slash], false);
    var p2 := FindSubstring(mem, path, [Backslash], false);
    var k1 := LastSeparator(mem, path, Slash);
    var k2 := LastSeparator(mem, path, Backslash);
    var p := if p1.data > p2.data then p1 else p2;
    assert PathName(mem, path, true, false) == After(path, p);
    if p.data != 0 {
      var k := p.data - path.data;
      assert k == k1 || k == k2;
      LaterSeparator(text, k1, k2, k);
    }
  }

  /** On Windows, with the scan left at the first hit, each search finds
      the first `/` and the first `\`; the name follows whichever of the
      two is later, so it may still hold the other separator.  The chosen
      separator is the first of its kind, and the other kind, when it
      occurs at all, occurs before it. */
  lemma WindowsFirstPathNameSpec(mem: seq<u8>, path: View)
    requires Valid(mem, path)
    ensures var text := Bytes(mem, path);
            var name := Bytes(mem, PathName(mem, path, true, true));
            && (Slash !in text && Backslash !in text ==> PathName(mem, path, true, true) == path)
            && (Slash in text || Backslash in text ==>
                  exists k :: && 0 <= k < |text| && name == text[k + 1..]
                              && ((text[k] == Slash && Slash !in text[..k] && (Backslash in text ==> Backslash in text[..k]))
                                  || (text[k] == Backslash && Backslash !in text[..k] && (Slash in text ==> Slash in text[..k]))))
  {
    var text := Bytes(mem, path);
    var p1 := FindSubstring(mem, path, [Slash], true);
    var p2 := FindSubstring(mem, path, [Backslash], true);
    SeparatorView(mem, path, Slash, true);
    SeparatorView(mem, path, Backslash, true);
    var p := if p1.data > p2.data then p1 else p2;
    assert PathName(mem, path, true, true) == After(path, p);
    if p1.data > p2.data {
      var k := p1.data - path.data;
      if p2.data != 0 {
        var k2 := p2.data - path.data;
        assert text[..k][k2] == Backslash;
      }
    } else if p2.data != 0 {
      var k := p2.data - path.data;
      if p1.data != 0 {
        var k1 := p1.data - path.data;
        assert k1 != k;
        assert text[..k][k1] == Slash;
      }
    }
  }

  /** Where the search that goes on finds `c` in `path`, -1 for nowhere,
      and what follows it. */
  lemma LastSeparator(mem: seq<u8>, path: View, c: u8) returns (k: int)
    requires Valid(mem, path)
    ensures var p := FindSubstring(mem, path, [c], false);
            var text := Bytes(mem, path);
            && (k == -1 <==> p.data == 0)
            && (k == -1 ==> c !in text)
            && (k != -1 ==> && 0 <= k < |text| && p.data == path.data + k
                            && text[k] == c && c !in text[k + 1..]
                            && Bytes(mem, After(path, p)) == text[k + 1..])
  {
    var p := FindSubstring(mem, path, [c], false);
    SeparatorView(mem, path, c, false);
    k := if p.data == 0 then -1 else p.data - path.data;
  }

  /** After the later of the last `/` (at `k1`) and the last `\` (at
      `k2`), -1 standing for none, neither separator follows. */
  lemma LaterSeparator(text: seq<u8>, k1: int, k2: int, k: nat)
    requires k1 == -1 || (0 <= k1 < |text| && text[k1] == Slash && Slash !in text[k1 + 1..])
    requires k1 == -1 ==> Slash !in text
    requires k2 == -1 || (0 <= k2 < |text| && text[k2] == Backslash && Backslash !in text[k2 + 1..])
    requires k2 == -1 ==> Backslash !in text
    requires k < |text| && (k == k1 || k == k2) && k1 <= k && k2 <= k
    ensures text[k] in {Slash, Backslash}
    ensures Slash !in text[k + 1..] && Backslash !in text[k + 1..]
  {
    if k1 == -1 {
      NoneLater(text, 0, k, Slash);
    } else {
      NoneLater(text, k1, k, Slash);
    }
    if k2 == -1 {
      NoneLater(text, 0, k, Backslash);
    } else {
      NoneLater(text, k2, k, Backslash);
    }
  }

  /** A byte absent after position `j` is absent after every later one. */
  lemma NoneLater(text: seq<u8>, j: nat, k: nat, c: u8)
    requires j <= k < |text| && c !in text[j + 1..]
    ensures c !in text[k + 1..]
  {
    assert text[k + 1..] == text[j + 1..][k - j..];
  }

  /** With the scan left at the first hit, the name follows the first
      separator, not the last: the name of `a/b/c` is `b/c`. */
  lemma WindowsFirstSeparators()
    ensures var mem: seq<u8> := [97, 47, 98, 47, 99];
            Bytes(mem, PathName(mem, View(1, 5), true, true)) == [98, 47, 99]
  {
    var mem: seq<u8> := [97, 47, 98, 47, 99];
    var path := View(1, 5);
    SeparatorView(mem, path, Slash, true);
    SeparatorView(mem, path, Backslash, true);
    FindSubstringSpec(mem, path, [Slash], true);
    assert Kmp.MatchAt(mem, [Slash], 1) by {
      ByteMatch(mem, Slash, 1);
    }
    assert !Kmp.MatchAt(mem, [Slash], 0) by {
      ByteMatch(mem, Slash, 0);
    }
    Kmp.FirstIs(mem, [Slash], 1);
    assert Bytes(mem, path) == mem;
  }
}
