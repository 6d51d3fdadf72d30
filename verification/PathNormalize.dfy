/**
 lcache_path_normalize: a path is brought into a normal form in a buffer, byte by byte. Directories
 are kept as names, each with a slash behind it; the last name is left as it is.
 */
module PathNormalize {
  type Byte = x: nat | x < 256

  const SLASH: Byte := 47
  const DOT: Byte := 46
  const NAME_MAX: nat := 255       // MFS_NAME_MAX
  const PATH_MAX: nat := 1024      // MFS_PATH_MAX

  type Name = seq<Byte>

  datatype Status = Ok | Einval | NameTooLong

  /** Directories entered and the name being read, or the error that ended it. */
  datatype Walk = At(dirs: seq<Name>, part: Name) | Failed(status: Status)

  function Flat(dirs: seq<Name>): seq<Byte> {
    if |dirs| == 0 then [] else Flat(dirs[..|dirs| - 1]) + dirs[|dirs| - 1] + [SLASH]
  }

  function Text(w: Walk): seq<Byte>
    requires w.At?
  {
    Flat(w.dirs) + w.part
  }

  /** What a slash does after a name. */
  function Enter(dirs: seq<Name>, part: Name): Walk {
    if part == [] || part == [DOT] then At(dirs, [])
    else if part == [DOT, DOT] then
      if |dirs| == 0 then Failed(Einval) else At(dirs[..|dirs| - 1], [])
    else if |Flat(dirs) + part| >= PATH_MAX then Failed(NameTooLong)
    else At(dirs + [part], [])
  }

  function Step(w: Walk, b: Byte): Walk {
    if w.Failed? then w
    else if b == SLASH then Enter(w.dirs, w.part)
    else if |w.part| >= NAME_MAX || |Text(w)| >= PATH_MAX then Failed(NameTooLong)
    else At(w.dirs, w.part + [b])
  }

  function Read(path: seq<Byte>): Walk {
    if |path| == 0 then At([], []) else Step(Read(path[..|path| - 1]), path[|path| - 1])
  }

  /** The path up to its first zero byte. */
  function Visible(path: seq<Byte>): (v: seq<Byte>)
    ensures v <= path && 0 !in v
    ensures v == path || path[|v|] == 0
  {
    if |path| == 0 || path[0] == 0 then [] else [path[0]] + Visible(path[1..])
  }

  /** The text and its closing zero must fit. */
  function Closed(w: Walk): Walk {
    if w.At? && |Text(w)| >= PATH_MAX then Failed(NameTooLong) else w
  }

  // ----- Names in the buffer -----

  /** The name of a directory that was entered. */
  predicate Plain(n: Name) {
    0 < |n| <= NAME_MAX && SLASH !in n && n != [DOT] && n != [DOT, DOT]
  }

  ghost predicate Clean(w: Walk) {
    w.At? ==> (forall i :: 0 <= i < |w.dirs| ==> Plain(w.dirs[i])) && SLASH !in w.part && |w.part| <= NAME_MAX
  }

  lemma {:induction false} ReadClean(path: seq<Byte>)
    ensures Clean(Read(path))
  {
    if |path| > 0 {
      ReadClean(path[..|path| - 1]);
    }
  }

  lemma FlatPush(dirs: seq<Name>, n: Name)
    ensures Flat(dirs + [n]) == Flat(dirs) + n + [SLASH]
  {
    assert (dirs + [n])[..|dirs|] == dirs;
  }

  lemma FlatEnds(dirs: seq<Name>)
    ensures |dirs| == 0 ==> Flat(dirs) == []
    ensures |dirs| > 0 ==> |Flat(dirs)| > 0 && Flat(dirs)[|Flat(dirs)| - 1] == SLASH
  {
  }

  // ----- The loop -----

  /** The text so far is in the buffer, and the name being read has partlen bytes. */
  ghost predicate Kept(rpath: seq<Byte>, rleng: nat, partlen: nat, w: Walk) {
    w.At? && Clean(w) && rleng <= |rpath| && rpath[..rleng] == Text(w) && partlen == |w.part|
  }

  /** Back to the slash behind the directory above. */
  method Back(rpath: array<Byte>, rleng: nat, ghost dirs: seq<Name>, ghost n: Name) returns (r: nat)
    requires rleng <= rpath.Length && rpath[..rleng] == Flat(dirs) + n && SLASH !in n
    ensures r <= rleng && rpath[..r] == Flat(dirs)
  {
    r := rleng;
    ghost var text := Flat(dirs) + n;
    FlatEnds(dirs);
    assert forall j :: |Flat(dirs)| <= j < rleng ==> rpath[j] == text[j] && text[j] in n;
    while r > 0 && rpath[r - 1] != SLASH
      invariant |Flat(dirs)| <= r <= rleng
    {
      assert rpath[r - 1] == text[r - 1];
      r := r - 1;
    }
    assert rpath[..r] == text[..r];
  }

  /** The end of the buffer is the name being read. */
  lemma LastBytes(rpath: seq<Byte>, rleng: nat, partlen: nat, w: Walk)
    requires Kept(rpath, rleng, partlen, w)
    ensures partlen <= rleng && rpath[..rleng - partlen] == Flat(w.dirs) && rpath[rleng - partlen..rleng] == w.part
  {
    var text, k := Text(w), rleng - partlen;
    assert k == |Flat(w.dirs)|;
    assert text[..k] == Flat(w.dirs) && text[k..] == w.part;
    assert rpath[..rleng][..k] == rpath[..k] && rpath[..rleng][k..] == rpath[k..rleng];
  }

  lemma OneOrTwoDots(rpath: seq<Byte>, rleng: nat, part: Name)
    requires |part| <= rleng <= |rpath| && rpath[rleng - |part|..rleng] == part
    ensures part == [DOT, DOT] <==> |part| == 2 && rpath[rleng - 1] == DOT && rpath[rleng - 2] == DOT
    ensures part == [DOT] <==> |part| == 1 && rpath[rleng - 1] == DOT
  {
    if |part| == 2 {
      assert part[0] == rpath[rleng - 2] && part[1] == rpath[rleng - 1];
    } else if |part| == 1 {
      assert part[0] == rpath[rleng - 1];
    }
  }

  /** What a round of the loop leaves, when it should lead to w. */
  ghost predicate Reached(rpath: seq<Byte>, rleng: nat, partlen: nat, status: Status, w: Walk) {
    if w.At? then status == Ok && Kept(rpath, rleng, partlen, w) else status == w.status != Ok
  }

  /** The two dots and the slash before them are dropped, and then the name before that slash. */
  method GoUp(rpath: array<Byte>, rleng: nat, ghost w: Walk) returns (status: Status, r: nat)
    requires Kept(rpath[..], rleng, 2, w) && w.part == [DOT, DOT]
    ensures Reached(rpath[..], r, 0, status, Enter(w.dirs, w.part))
  {
    LastBytes(rpath[..], rleng, 2, w);
    FlatEnds(w.dirs);
    if rleng < 3 {
      return Einval, rleng;
    }
    ghost var up, n := w.dirs[..|w.dirs| - 1], w.dirs[|w.dirs| - 1];
    assert rpath[..][..rleng - 2][..rleng - 3] == rpath[..rleng - 3] == Flat(up) + n;
    r := Back(rpath, rleng - 3, up, n);
    status := Ok;
  }

  method PutSlash(rpath: array<Byte>, rleng: nat, partlen: nat, ghost w: Walk) returns (status: Status, r: nat)
    requires rpath.Length == PATH_MAX && Kept(rpath[..], rleng, partlen, w) && Plain(w.part)
    modifies rpath
    ensures Reached(rpath[..], r, 0, status, Enter(w.dirs, w.part))
  {
    if rleng >= PATH_MAX {
      return NameTooLong, rleng;
    }
    ghost var text := Text(w);
    rpath[rleng] := SLASH;
    FlatPush(w.dirs, w.part);
    assert rpath[..rleng + 1] == text + [SLASH];
    status, r := Ok, rleng + 1;
  }

  /** No name, or a dot: the text without it. */
  lemma DropPart(rpath: seq<Byte>, rleng: nat, partlen: nat, w: Walk)
    requires Kept(rpath, rleng, partlen, w) && (w.part == [] || w.part == [DOT])
    ensures partlen <= rleng && Reached(rpath, rleng - partlen, 0, Ok, Enter(w.dirs, w.part))
  {
    LastBytes(rpath, rleng, partlen, w);
    assert Flat(w.dirs) + [] == Flat(w.dirs);
  }

  lemma WhichPart(rpath: seq<Byte>, rleng: nat, partlen: nat, w: Walk)
    requires Kept(rpath, rleng, partlen, w)
    ensures partlen == |w.part| <= rleng <= |rpath|
    ensures w.part == [DOT, DOT] <==> partlen == 2 && rpath[rleng - 1] == DOT && rpath[rleng - 2] == DOT
    ensures w.part == [DOT] <==> partlen == 1 && rpath[rleng - 1] == DOT
    ensures w.part == [] || w.part == [DOT] || w.part == [DOT, DOT] || Plain(w.part)
  {
    LastBytes(rpath, rleng, partlen, w);
    OneOrTwoDots(rpath, rleng, w.part);
  }

  method TakeSlash(rpath: array<Byte>, rleng: nat, partlen: nat, ghost w: Walk) returns (status: Status, r: nat)
    requires rpath.Length == PATH_MAX && Kept(rpath[..], rleng, partlen, w)
    modifies rpath
    ensures Reached(rpath[..], r, 0, status, Enter(w.dirs, w.part))
  {
    WhichPart(rpath[..], rleng, partlen, w);
    if partlen == 0 {
      DropPart(rpath[..], rleng, partlen, w);
      status, r := Ok, rleng;
    } else if partlen == 2 && rpath[rleng - 1] == DOT && rpath[rleng - 2] == DOT {
      status, r := GoUp(rpath, rleng, w);
    } else if partlen == 1 && rpath[rleng - 1] == DOT {
      DropPart(rpath[..], rleng, partlen, w);
      status, r := Ok, rleng - 1;
    } else {
      status, r := PutSlash(rpath, rleng, partlen, w);
    }
  }

  method TakeByte(rpath: array<Byte>, rleng: nat, partlen: nat, b: Byte, ghost w: Walk) returns (status: Status)
    requires rpath.Length == PATH_MAX && Kept(rpath[..], rleng, partlen, w) && b != SLASH
    modifies rpath
    ensures Reached(rpath[..], rleng + 1, partlen + 1, status, Step(w, b))
  {
    if partlen >= NAME_MAX {
      return NameTooLong;
    }
    if rleng >= PATH_MAX {
      return NameTooLong;
    }
    ghost var text := Text(w);
    rpath[rleng] := b;
    assert rpath[..rleng + 1] == text + [b];
    status := Ok;
  }

  lemma ReadStep(path: seq<Byte>, i: nat)
    requires i < |path|
    ensures Read(path[..i + 1]) == Step(Read(path[..i]), path[i])
  {
    assert path[..i + 1][..i] == path[..i];
  }

  lemma {:induction false} FailedStays(path: seq<Byte>, i: nat)
    requires i <= |path| && Read(path[..i]).Failed?
    ensures Read(path) == Read(path[..i])
    decreases |path| - i
  {
    if i < |path| {
      ReadStep(path, i);
      FailedStays(path, i + 1);
    } else {
      assert path[..i] == path;
    }
  }

  /** One round of the loop. */
  method Take(rpath: array<Byte>, rleng: nat, partlen: nat, b: Byte, ghost w: Walk) returns (status: Status, r: nat, l: nat)
    requires rpath.Length == PATH_MAX && Kept(rpath[..], rleng, partlen, w)
    modifies rpath
    ensures Reached(rpath[..], r, l, status, Step(w, b))
  {
    if b == SLASH {
      status, r := TakeSlash(rpath, rleng, partlen, w);
      l := 0;
    } else {
      status := TakeByte(rpath, rleng, partlen, b, w);
      r, l := rleng + 1, partlen + 1;
    }
  }

  /** lcache_path_normalize. */
  method Normalize(path: seq<Byte>, rpath: array<Byte>) returns (status: Status, rpleng: nat)
    requires rpath.Length == PATH_MAX
    modifies rpath
    ensures var w := Closed(Read(Visible(path)));
            if w.At? then status == Ok && rpleng < PATH_MAX && rpath[..rpleng] == Text(w) && rpath[rpleng] == 0
            else status == w.status != Ok
  {
    ghost var v := Visible(path);
    var i, partlen := 0, 0;
    rpleng := 0;
    while i < |path| && path[i] != 0
      invariant 0 <= i <= |v| && Kept(rpath[..], rpleng, partlen, Read(v[..i]))
      decreases |path| - i
    {
      ReadStep(v, i);
      status, rpleng, partlen := Take(rpath, rpleng, partlen, path[i], Read(v[..i]));
      if status != Ok {
        FailedStays(v, i + 1);
        return;
      }
      i := i + 1;
    }
    assert v[..i] == v;
    if rpleng >= PATH_MAX {
      return NameTooLong, rpleng;
    }
    ghost var text := rpath[..rpleng];
    rpath[rpleng] := 0;
    assert rpath[..rpleng] == text;
    status := Ok;
  }

  // ----- The normal form is read back as it is -----

  lemma ReadPush(path: seq<Byte>, b: Byte)
    ensures Read(path + [b]) == Step(Read(path), b)
  {
    assert (path + [b])[..|path|] == path;
  }

  /** One more byte of a name. */
  lemma NamePush(path: seq<Byte>, dirs: seq<Name>, n: Name, b: Byte)
    requires Read(path) == At(dirs, n) && b != SLASH && |n| < NAME_MAX && |Flat(dirs)| + |n| < PATH_MAX
    ensures Read(path + [b]) == At(dirs, n + [b])
  {
    ReadPush(path, b);
  }

  lemma SplitLast(path: seq<Byte>, n: Name)
    requires |n| > 0
    ensures var m, b := n[..|n| - 1], n[|n| - 1];
            path + n == path + m + [b] && n == m + [b] && b in n && forall x :: x in m ==> x in n
  {
  }

  /** A name is read byte by byte. */
  lemma {:induction false} ReadName(path: seq<Byte>, dirs: seq<Name>, n: Name)
    requires Read(path) == At(dirs, []) && SLASH !in n && |n| <= NAME_MAX && |Flat(dirs)| + |n| <= PATH_MAX
    ensures Read(path + n) == At(dirs, n)
  {
    if |n| == 0 {
      assert path + n == path;
    } else {
      var m, b := n[..|n| - 1], n[|n| - 1];
      SplitLast(path, n);
      ReadName(path, dirs, m);
      NamePush(path + m, dirs, m, b);
    }
  }

  lemma {:induction false} ReadFlat(dirs: seq<Name>)
    requires (forall i :: 0 <= i < |dirs| ==> Plain(dirs[i])) && |Flat(dirs)| <= PATH_MAX
    ensures Read(Flat(dirs)) == At(dirs, [])
  {
    if |dirs| > 0 {
      var up, n := dirs[..|dirs| - 1], dirs[|dirs| - 1];
      ReadFlat(up);
      ReadName(Flat(up), up, n);
      ReadPush(Flat(up) + n, SLASH);
      assert up + [n] == dirs;
    }
  }

  lemma ReadText(w: Walk)
    requires w.At? && Clean(w) && |Text(w)| < PATH_MAX
    ensures Read(Text(w)) == w
  {
    ReadFlat(w.dirs);
    ReadName(Flat(w.dirs), w.dirs, w.part);
  }

  lemma {:induction false} NoZero(path: seq<Byte>)
    requires 0 !in path && Read(path).At?
    ensures 0 !in Text(Read(path))
  {
    if |path| > 0 {
      var front, b := path[..|path| - 1], path[|path| - 1];
      NoZero(front);
      var w := Read(front);
      if b == SLASH {
        FlatPush(w.dirs, w.part);
      }
    }
  }

  lemma AllVisible(path: seq<Byte>)
    requires 0 !in path
    ensures Visible(path) == path
  {
  }

  /** A normal form is its own normal form. */
  lemma Idempotent(path: seq<Byte>)
    requires Closed(Read(Visible(path))).At?
    ensures var w := Closed(Read(Visible(path))); Closed(Read(Visible(Text(w)))) == w
  {
    var v := Visible(path);
    var w := Read(v);
    ReadClean(v);
    ReadText(w);
    NoZero(v);
    AllVisible(Text(w));
  }

  // ----- The normal form means the same -----

  /** The names a path enters, and the one that it ends with. */
  function Entered(path: seq<Byte>): seq<Name> {
    if |path| == 0 then []
    else
      var front := path[..|path| - 1];
      if path[|path| - 1] == SLASH then Entered(front) + [Last(front)] else Entered(front)
  }

  function Last(path: seq<Byte>): Name {
    if |path| == 0 || path[|path| - 1] == SLASH then [] else Last(path[..|path| - 1]) + [path[|path| - 1]]
  }

  /** A tree of directories: from every child the way up leads back. */
  datatype Tree<!N(!new)> = Tree(child: (N, Name) -> N, parent: N -> N) {
    ghost predicate Valid() {
      forall x, n :: parent(child(x, n)) == x
    }

    function Go(x: N, names: seq<Name>): N {
      if |names| == 0 then x
      else
        var y, n := Go(x, names[..|names| - 1]), names[|names| - 1];
        if n == [] || n == [DOT] then y else if n == [DOT, DOT] then parent(y) else child(y, n)
    }

    lemma GoPush(x: N, names: seq<Name>, n: Name)
      ensures Go(x, names + [n]) == if n == [] || n == [DOT] then Go(x, names)
                                    else if n == [DOT, DOT] then parent(Go(x, names)) else child(Go(x, names), n)
    {
      assert (names + [n])[..|names|] == names;
    }
  }

  /** How deep a list of names leads. */
  function Depth(names: seq<Name>): int {
    if |names| == 0 then 0
    else
      var n := names[|names| - 1];
      Depth(names[..|names| - 1]) + (if n == [] || n == [DOT] then 0 else if n == [DOT, DOT] then -1 else 1)
  }

  /** One step up too many, somewhere on the way. */
  predicate Leaves(names: seq<Name>) {
    exists i :: 0 <= i <= |names| && Depth(names[..i]) < 0
  }

  lemma LeavesPush(names: seq<Name>, n: Name)
    ensures Depth(names + [n]) == Depth(names) + (if n == [] || n == [DOT] then 0 else if n == [DOT, DOT] then -1 else 1)
    ensures Leaves(names + [n]) <==> Leaves(names) || Depth(names + [n]) < 0
  {
    var more := names + [n];
    assert more[..|names|] == names && more[..|more|] == more;
    forall i | 0 <= i <= |names| ensures more[..i] == names[..i] {
    }
    if Leaves(names) {
      var i :| 0 <= i <= |names| && Depth(names[..i]) < 0;
      assert Depth(more[..i]) < 0;
    }
    if Depth(more) < 0 {
      assert Depth(more[..|more|]) < 0;
    }
    if Leaves(more) {
      var i :| 0 <= i <= |more| && Depth(more[..i]) < 0;
      assert i <= |names| ==> Depth(names[..i]) < 0;
    }
  }

  /** Entering a name in a tree. */
  lemma EnterMeans<N(!new)>(t: Tree<N>, x: N, dirs: seq<Name>, part: Name)
    requires t.Valid() && (forall i :: 0 <= i < |dirs| ==> Plain(dirs[i]))
    ensures var w := Enter(dirs, part); w.At? ==> t.Go(x, w.dirs) == t.Go(x, dirs + [part])
  {
    t.GoPush(x, dirs, part);
    if part == [DOT, DOT] && |dirs| > 0 {
      var up, n := dirs[..|dirs| - 1], dirs[|dirs| - 1];
      assert dirs == up + [n] && Plain(n);
      t.GoPush(x, up, n);
    }
  }

  /** The directories kept lead to where the names entered lead, and the last name is untouched. */
  lemma {:induction false} ReadMeans<N(!new)>(t: Tree<N>, x: N, path: seq<Byte>)
    requires t.Valid() && Read(path).At?
    ensures var w := Read(path); t.Go(x, w.dirs) == t.Go(x, Entered(path)) && w.part == Last(path)
  {
    if |path| > 0 {
      var front := path[..|path| - 1];
      ReadMeans(t, x, front);
      ReadClean(front);
      var w := Read(front);
      if path[|path| - 1] == SLASH {
        EnterMeans(t, x, w.dirs, w.part);
        t.GoPush(x, w.dirs, w.part);
        t.GoPush(x, Entered(front), w.part);
      }
    }
  }

  /** In every tree and from every place, a path and its normal form lead to the same place. */
  lemma SameMeaning<N(!new)>(t: Tree<N>, x: N, path: seq<Byte>)
    requires t.Valid() && Closed(Read(Visible(path))).At?
    ensures var v, r := Visible(path), Text(Read(Visible(path)));
            t.Go(x, Entered(r)) == t.Go(x, Entered(v)) && Last(r) == Last(v)
  {
    var v := Visible(path);
    var w := Read(v);
    ReadMeans(t, x, v);
    ReadClean(v);
    ReadText(w);
    ReadMeans(t, x, Text(w));
  }

  /** The tree in which a place is the list of names that lead to it. */
  const LEXICAL: Tree<seq<Name>> := Tree((x, n) => x + [n], x => if |x| > 0 then x[..|x| - 1] else x)

  lemma LexicalValid()
    ensures LEXICAL.Valid()
  {
    forall x: seq<Name>, n ensures LEXICAL.parent(LEXICAL.child(x, n)) == x {
      assert (x + [n])[..|x|] == x;
    }
  }

  lemma {:induction false} LexicalGo(dirs: seq<Name>)
    requires forall i :: 0 <= i < |dirs| ==> Plain(dirs[i])
    ensures LEXICAL.Go([], dirs) == dirs
  {
    if |dirs| > 0 {
      LexicalGo(dirs[..|dirs| - 1]);
      assert Plain(dirs[|dirs| - 1]);
      assert dirs[..|dirs| - 1] + [dirs[|dirs| - 1]] == dirs;
    }
  }

  /** Two paths have the same normal form exactly when they lead to the same place and end alike. */
  lemma SameNormalForm(p: seq<Byte>, q: seq<Byte>)
    requires Closed(Read(p)).At? && Closed(Read(q)).At?
    ensures Text(Read(p)) == Text(Read(q)) <==>
              LEXICAL.Go([], Entered(p)) == LEXICAL.Go([], Entered(q)) && Last(p) == Last(q)
  {
    LexicalValid();
    ReadMeans(LEXICAL, [], p);
    ReadMeans(LEXICAL, [], q);
    ReadClean(p);
    ReadClean(q);
    LexicalGo(Read(p).dirs);
    LexicalGo(Read(q).dirs);
    ReadText(Read(p));
    ReadText(Read(q));
  }

  // ----- When it fails -----

  lemma LastKept(path: seq<Byte>)
    requires Read(path).At?
    ensures Read(path).part == Last(path)
  {
    LexicalValid();
    ReadMeans(LEXICAL, [], path);
  }

  lemma {:induction false} ReadDepth(path: seq<Byte>)
    ensures var w := Read(path);
            && (w.At? ==> !Leaves(Entered(path)) && Depth(Entered(path)) == |w.dirs|)
            && (w == Failed(Einval) ==> Leaves(Entered(path)))
  {
    if |path| > 0 {
      var front := path[..|path| - 1];
      ReadDepth(front);
      LeavesPush(Entered(front), Last(front));
      if Read(front).At? {
        LastKept(front);
      }
    }
  }

  /** Names within the limit. */
  predicate Short(names: seq<Name>) {
    forall i :: 0 <= i < |names| ==> |names[i]| <= NAME_MAX
  }

  lemma EnterShortens(dirs: seq<Name>, part: Name)
    requires |Flat(dirs) + part| < PATH_MAX
    ensures var w := Enter(dirs, part); if w.At? then |Text(w)| <= |Flat(dirs)| + |part| + 1 else w == Failed(Einval)
  {
    FlatPush(dirs, part);
  }

  lemma ShortFront(path: seq<Byte>)
    requires |path| > 0 && Short(Entered(path)) && |Last(path)| <= NAME_MAX
    ensures var front := path[..|path| - 1]; Short(Entered(front)) && |Last(front)| <= NAME_MAX
  {
    var front := path[..|path| - 1];
    if path[|path| - 1] == SLASH {
      var names, more := Entered(front), Entered(path);
      assert more == names + [Last(front)] && more[|names|] == Last(front);
      assert forall i :: 0 <= i < |names| ==> names[i] == more[i];
    }
  }

  /** Within the limits of names and paths nothing is too long. */
  lemma {:induction false} WithinLimits(path: seq<Byte>)
    requires |path| < PATH_MAX && Short(Entered(path)) && |Last(path)| <= NAME_MAX
    ensures var w := Read(path); if w.At? then |Text(w)| <= |path| else w == Failed(Einval)
  {
    if |path| > 0 {
      var front := path[..|path| - 1];
      ShortFront(path);
      WithinLimits(front);
      if Read(front).At? {
        LastKept(front);
        EnterShortens(Read(front).dirs, Read(front).part);
      }
    }
  }

  /** Within the limits a path is refused exactly when it leaves the directory it starts from. */
  lemma RefusedExactly(path: seq<Byte>)
    requires |path| < PATH_MAX && Short(Entered(path)) && |Last(path)| <= NAME_MAX
    ensures Closed(Read(path)) == Failed(Einval) <==> Leaves(Entered(path))
    ensures Closed(Read(path)).At? <==> !Leaves(Entered(path))
  {
    WithinLimits(path);
    ReadDepth(path);
  }
}
