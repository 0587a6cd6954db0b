/** `linkBytecode` of `helpers/contracts-helpers.ts`: splicing library addresses into bytecode. */
module LinkBytecode {

  /** A place, in bytes after the `0x` prefix, where a library's address belongs. */
  datatype Fixup = Fixup(start: nat, length: nat)
  datatype Library = Library(name: string, fixups: seq<Fixup>)
  datatype File = File(name: string, libraries: seq<Library>)
  datatype Artifact = Artifact(bytecode: string, linkReferences: seq<File>)

  /** `s.substr(0, n)`, which stops at the end of the string. */
  function Prefix(s: string, n: nat): string { if n <= |s| then s[..n] else s }

  /** `s.substr(n)`, which is empty past the end of the string. */
  function Suffix(s: string, n: nat): string { if n <= |s| then s[n..] else [] }

  // ----- The specification: patches applied one after the other -----

  /** The hexadecimal digits `hex` go to the characters from `from` up to `to`. */
  datatype Patch = Patch(from: nat, to: nat, hex: string)

  function Splice(code: string, p: Patch): string {
    Prefix(code, p.from) + p.hex + Suffix(code, p.to)
  }

  function SpliceAll(code: string, ps: seq<Patch>): string {
    if ps == [] then code else Splice(SpliceAll(code, ps[..|ps| - 1]), ps[|ps| - 1])
  }

  function FixupPatch(f: Fixup, address: string): Patch {
    Patch(2 + f.start * 2, 2 + (f.start + f.length) * 2, Suffix(address, 2))
  }

  function FixupPatches(fs: seq<Fixup>, address: string): seq<Patch> {
    if fs == [] then [] else FixupPatches(fs[..|fs| - 1], address) + [FixupPatch(fs[|fs| - 1], address)]
  }

  /** A library without an address contributes nothing. */
  function LibraryPatches(libs: seq<Library>, addresses: map<string, string>): seq<Patch> {
    if libs == [] then []
    else
      var last := libs[|libs| - 1];
      LibraryPatches(libs[..|libs| - 1], addresses)
      + if last.name in addresses then FixupPatches(last.fixups, addresses[last.name]) else []
  }

  function FilePatches(files: seq<File>, addresses: map<string, string>): seq<Patch> {
    if files == [] then []
    else FilePatches(files[..|files| - 1], addresses) + LibraryPatches(files[|files| - 1].libraries, addresses)
  }

  lemma {:induction false} SpliceAllConcat(code: string, ps: seq<Patch>, qs: seq<Patch>)
    ensures SpliceAll(code, ps + qs) == SpliceAll(SpliceAll(code, ps), qs)
  {
    if qs == [] {
      assert ps + qs == ps;
    } else {
      var n := |qs| - 1;
      assert (ps + qs)[..|ps + qs| - 1] == ps + qs[..n];
      SpliceAllConcat(code, ps, qs[..n]);
    }
  }

  lemma SpliceOneMore(code: string, ps: seq<Patch>, p: Patch)
    ensures SpliceAll(code, ps + [p]) == Splice(SpliceAll(code, ps), p)
  {
    assert (ps + [p])[..|ps|] == ps;
  }

  lemma OneMoreFixup(fs: seq<Fixup>, k: nat, address: string)
    requires k < |fs|
    ensures FixupPatches(fs[..k + 1], address) == FixupPatches(fs[..k], address) + [FixupPatch(fs[k], address)]
  {
    assert fs[..k + 1][..k] == fs[..k];
  }

  lemma OneMoreLibrary(libs: seq<Library>, j: nat, addresses: map<string, string>)
    requires j < |libs|
    ensures LibraryPatches(libs[..j + 1], addresses) == LibraryPatches(libs[..j], addresses)
      + if libs[j].name in addresses then FixupPatches(libs[j].fixups, addresses[libs[j].name]) else []
    ensures libs[j].name !in addresses ==> LibraryPatches(libs[..j + 1], addresses) == LibraryPatches(libs[..j], addresses)
  {
    assert libs[..j + 1][..j] == libs[..j];
  }

  lemma OneMoreFile(files: seq<File>, i: nat, addresses: map<string, string>)
    requires i < |files|
    ensures FilePatches(files[..i + 1], addresses)
         == FilePatches(files[..i], addresses) + LibraryPatches(files[i].libraries, addresses)
  {
    assert files[..i + 1][..i] == files[..i];
  }

  // ----- What linking is for, said of the files, fixups and addresses themselves -----

  /** The k-th fixup of the j-th library of the i-th file belongs to a library with an address. */
  predicate Linked(files: seq<File>, addresses: map<string, string>, i: int, j: int, k: int) {
    && 0 <= i < |files| && 0 <= j < |files[i].libraries| && 0 <= k < |files[i].libraries[j].fixups|
    && files[i].libraries[j].name in addresses
  }

  function FixupAt(files: seq<File>, i: int, j: int, k: int): Fixup
    requires 0 <= i < |files| && 0 <= j < |files[i].libraries| && 0 <= k < |files[i].libraries[j].fixups|
  {
    files[i].libraries[j].fixups[k]
  }

  function AddressAt(files: seq<File>, addresses: map<string, string>, i: int, j: int): string
    requires 0 <= i < |files| && 0 <= j < |files[i].libraries| && files[i].libraries[j].name in addresses
  {
    addresses[files[i].libraries[j].name]
  }

  /** The fixup ends inside the code, and its address has `0x` and two digits for each of its bytes. */
  predicate FixupFitsCode(code: string, f: Fixup, address: string) {
    |address| == 2 + 2 * f.length && 2 + 2 * (f.start + f.length) <= |code|
  }

  predicate Apart(f: Fixup, g: Fixup) { f.start + f.length <= g.start || g.start + g.length <= f.start }

  ghost predicate AllFit(code: string, files: seq<File>, addresses: map<string, string>) {
    forall i, j, k :: Linked(files, addresses, i, j, k) ==>
      FixupFitsCode(code, FixupAt(files, i, j, k), AddressAt(files, addresses, i, j))
  }

  ghost predicate AllApart(files: seq<File>, addresses: map<string, string>) {
    forall i, j, k, i', j', k' ::
      Linked(files, addresses, i, j, k) && Linked(files, addresses, i', j', k') && !(i == i' && j == j' && k == k') ==>
        Apart(FixupAt(files, i, j, k), FixupAt(files, i', j', k'))
  }

  predicate Within(f: Fixup, x: int) { 2 + 2 * f.start <= x < 2 + 2 * (f.start + f.length) }

  /** No fixup of a linked library lies on the character. */
  ghost predicate Untouched(files: seq<File>, addresses: map<string, string>, x: int) {
    forall i, j, k :: Linked(files, addresses, i, j, k) ==> !Within(FixupAt(files, i, j, k), x)
  }

  /** Every linked fixup holds its library's address without the `0x`; every other character, those for
      libraries without an address included, is the old one. */
  ghost predicate LinkedInPlace(code: string, files: seq<File>, addresses: map<string, string>, linked: string)
    requires AllFit(code, files, addresses)
  {
    && |linked| == |code|
    && (forall i, j, k :: Linked(files, addresses, i, j, k) ==>
          var f := FixupAt(files, i, j, k);
          linked[2 + 2 * f.start..2 + 2 * (f.start + f.length)] == AddressAt(files, addresses, i, j)[2..])
    && (forall x :: 0 <= x < |code| && Untouched(files, addresses, x) ==> linked[x] == code[x])
  }

  /** The three nested loops apply the patches of all linked libraries, in traversal order. If their
      fixups fit and lie apart, every one of them then holds its address and nothing else changed. */
  method Link(artifact: Artifact, addresses: map<string, string>) returns (bytecode: string)
    ensures bytecode == SpliceAll(artifact.bytecode, FilePatches(artifact.linkReferences, addresses))
    ensures AllFit(artifact.bytecode, artifact.linkReferences, addresses) && AllApart(artifact.linkReferences, addresses) ==>
      LinkedInPlace(artifact.bytecode, artifact.linkReferences, addresses, bytecode)
  {
    hide SpliceAll, FilePatches, LibraryPatches, FixupPatches, Prefix, Suffix, AllFit, AllApart, LinkedInPlace;
    bytecode := artifact.bytecode;
    var files := artifact.linkReferences;
    NothingToSplice(bytecode, addresses);
    for i := 0 to |files|
      invariant bytecode == SpliceAll(artifact.bytecode, FilePatches(files[..i], addresses))
    {
      var libs := files[i].libraries;
      ghost var atFile := bytecode;
      NothingToSplice(atFile, addresses);
      for j := 0 to |libs|
        invariant bytecode == SpliceAll(atFile, LibraryPatches(libs[..j], addresses))
      {
        OneMoreLibrary(libs, j, addresses);
        if libs[j].name !in addresses {
          continue;
        }
        var addr := addresses[libs[j].name];
        var fixups := libs[j].fixups;
        ghost var atLibrary := bytecode;
        FixupPatchesOfNone(atLibrary, addr);
        for k := 0 to |fixups|
          invariant bytecode == SpliceAll(atLibrary, FixupPatches(fixups[..k], addr))
        {
          var fixup := fixups[k];
          OneMoreFixup(fixups, k, addr);
          SpliceOneMore(atLibrary, FixupPatches(fixups[..k], addr), FixupPatch(fixup, addr));
          bytecode := Prefix(bytecode, 2 + fixup.start * 2) + Suffix(addr, 2)
            + Suffix(bytecode, 2 + (fixup.start + fixup.length) * 2);
        }
        assert fixups[..|fixups|] == fixups;
        SpliceAllConcat(atFile, LibraryPatches(libs[..j], addresses), FixupPatches(fixups, addr));
      }
      assert libs[..|libs|] == libs;
      OneMoreFile(files, i, addresses);
      SpliceAllConcat(artifact.bytecode, FilePatches(files[..i], addresses), LibraryPatches(libs, addresses));
    }
    assert files[..|files|] == files;
    if AllFit(artifact.bytecode, files, addresses) && AllApart(files, addresses) {
      SplicingLinks(artifact.bytecode, files, addresses);
    }
  }

  lemma NothingToSplice(code: string, addresses: map<string, string>)
    ensures SpliceAll(code, FilePatches([], addresses)) == code
    ensures SpliceAll(code, LibraryPatches([], addresses)) == code
  {
  }

  lemma FixupPatchesOfNone(code: string, address: string)
    ensures SpliceAll(code, FixupPatches([], address)) == code
  {
  }

  // ----- Simultaneous substitution -----

  /** The patch stays inside the code and replaces as many characters as it writes. */
  predicate Fits(code: string, p: Patch) { p.from <= p.to <= |code| && |p.hex| == p.to - p.from }

  /** A fixup fits exactly when its address has two digits for each of its bytes and it ends inside
      the code. */
  lemma FixupFits(code: string, f: Fixup, address: string)
    requires |address| >= 2
    ensures Fits(code, FixupPatch(f, address))
      <==> |address| == 2 + 2 * f.length && 2 + 2 * (f.start + f.length) <= |code|
  {
  }

  predicate Covers(p: Patch, i: int) { p.from <= i < p.to }

  predicate Disjoint(p: Patch, q: Patch) { p.to <= q.from || q.to <= p.from }

  /** All patches fit, and no two of them overlap. */
  predicate WellPlaced(code: string, ps: seq<Patch>) {
    && (forall k :: 0 <= k < |ps| ==> Fits(code, ps[k]))
    && (forall j, k :: 0 <= j < k < |ps| ==> Disjoint(ps[j], ps[k]))
  }

  /** Every patched range of `linked` holds its digits, every other character is that of `code`. */
  ghost predicate Substituted(code: string, ps: seq<Patch>, linked: string) {
    && |linked| == |code|
    && (forall k, i :: 0 <= k < |ps| && 0 <= i < |code| && Covers(ps[k], i) && Fits(code, ps[k])
          ==> linked[i] == ps[k].hex[i - ps[k].from])
    && (forall i :: 0 <= i < |code| && (forall k :: 0 <= k < |ps| ==> !Covers(ps[k], i)) ==> linked[i] == code[i])
  }

  lemma SpliceAt(code: string, p: Patch)
    requires Fits(code, p)
    ensures |Splice(code, p)| == |code|
    ensures forall i :: 0 <= i < |code| ==> Splice(code, p)[i] == if Covers(p, i) then p.hex[i - p.from] else code[i]
  {
  }

  /** One more patch, disjoint from the earlier ones, extends a substitution. */
  lemma ExtendSubstitution(code: string, ps: seq<Patch>, p: Patch, mid: string)
    requires Substituted(code, ps, mid) && Fits(code, p)
    requires forall k :: 0 <= k < |ps| ==> Disjoint(ps[k], p)
    ensures Substituted(code, ps + [p], Splice(mid, p))
  {
    hide Splice;
    SpliceAt(mid, p);
    var linked, qs := Splice(mid, p), ps + [p];
    forall k, i | 0 <= k < |qs| && 0 <= i < |code| && Covers(qs[k], i) && Fits(code, qs[k])
      ensures linked[i] == qs[k].hex[i - qs[k].from]
    {
      if k < |ps| {
        assert qs[k] == ps[k] && Disjoint(ps[k], p);
      }
    }
    forall i | 0 <= i < |code| && (forall k :: 0 <= k < |qs| ==> !Covers(qs[k], i))
      ensures linked[i] == code[i]
    {
      assert !Covers(qs[|ps|], i);
      assert forall k :: 0 <= k < |ps| ==> qs[k] == ps[k];
    }
  }

  /** Splicing well-placed patches one after the other substitutes them simultaneously. */
  lemma {:induction false} SplicingSubstitutes(code: string, ps: seq<Patch>)
    requires WellPlaced(code, ps)
    ensures Substituted(code, ps, SpliceAll(code, ps))
  {
    if ps == [] {
    } else {
      hide Substituted, Splice, WellPlaced;
      var n := |ps| - 1;
      DropLast(code, ps);
      SplicingSubstitutes(code, ps[..n]);
      ExtendSubstitution(code, ps[..n], ps[n], SpliceAll(code, ps[..n]));
      assert ps[..n] + [ps[n]] == ps;
    }
  }

  lemma DropLast(code: string, ps: seq<Patch>)
    requires ps != [] && WellPlaced(code, ps)
    ensures var n := |ps| - 1;
      && WellPlaced(code, ps[..n]) && Fits(code, ps[n])
      && forall k :: 0 <= k < n ==> Disjoint(ps[..n][k], ps[n])
  {
  }

  /** A simultaneous substitution has one result, whatever the order of the patches. */
  lemma SubstitutionUnique(code: string, ps: seq<Patch>, qs: seq<Patch>, a: string, b: string)
    requires WellPlaced(code, ps) && WellPlaced(code, qs)
    requires forall p :: p in ps <==> p in qs
    requires Substituted(code, ps, a) && Substituted(code, qs, b)
    ensures a == b
  {
    forall i | 0 <= i < |code|
      ensures a[i] == b[i]
    {
      if k :| 0 <= k < |ps| && Covers(ps[k], i) {
        assert ps[k] in qs;
        var j :| 0 <= j < |qs| && qs[j] == ps[k];
      } else {
        forall j | 0 <= j < |qs|
          ensures !Covers(qs[j], i)
        {
          assert qs[j] in ps;
        }
      }
    }
  }

  /** Patches in another order, each as often as before, are as well placed. */
  lemma RearrangedPatches(code: string, ps: seq<Patch>, qs: seq<Patch>)
    requires WellPlaced(code, ps) && multiset(ps) == multiset(qs)
    ensures WellPlaced(code, qs) && forall p :: p in ps <==> p in qs
  {
    assert forall p :: p in ps <==> p in multiset(ps);
    assert forall p :: p in qs <==> p in multiset(qs);
    forall k | 0 <= k < |qs|
      ensures Fits(code, qs[k])
    {
      assert qs[k] in ps;
    }
    forall j, k | 0 <= j < k < |qs|
      ensures Disjoint(qs[j], qs[k])
    {
      if qs[j] == qs[k] {
        CountOfTwo(qs, j, k);
        var a, b := TwoPlaces(ps, qs[j]);
      } else {
        assert qs[j] in ps && qs[k] in ps;
        var a :| 0 <= a < |ps| && ps[a] == qs[j];
        var b :| 0 <= b < |ps| && ps[b] == qs[k];
        assert if a < b then Disjoint(ps[a], ps[b]) else Disjoint(ps[b], ps[a]);
      }
    }
  }

  lemma CountOfTwo(ps: seq<Patch>, j: nat, k: nat)
    requires j < k < |ps| && ps[j] == ps[k]
    ensures multiset(ps)[ps[j]] >= 2
  {
    assert ps == ps[..k] + [ps[k]] + ps[k + 1..];
    assert ps[..k][j] == ps[j];
  }

  lemma TwoPlaces(ps: seq<Patch>, p: Patch) returns (a: nat, b: nat)
    requires multiset(ps)[p] >= 2
    ensures a < b < |ps| && ps[a] == ps[b] == p
  {
    assert p in multiset(ps);
    var i :| 0 <= i < |ps| && ps[i] == p;
    var rest := ps[..i] + ps[i + 1..];
    assert ps == ps[..i] + [p] + ps[i + 1..];
    assert p in multiset(rest);
    var j :| 0 <= j < |rest| && rest[j] == p;
    a, b := if j < i then j else i, if j < i then i else j + 1;
  }

  /** Linking does not depend on the order in which files, libraries and fixups are visited. */
  lemma LinkOrderIrrelevant(code: string, files: seq<File>, files': seq<File>, addresses: map<string, string>)
    requires WellPlaced(code, FilePatches(files, addresses))
    requires multiset(FilePatches(files, addresses)) == multiset(FilePatches(files', addresses))
    ensures WellPlaced(code, FilePatches(files', addresses))
    ensures SpliceAll(code, FilePatches(files, addresses)) == SpliceAll(code, FilePatches(files', addresses))
  {
    hide WellPlaced, Substituted;
    var ps, qs := FilePatches(files, addresses), FilePatches(files', addresses);
    RearrangedPatches(code, ps, qs);
    SplicingSubstitutes(code, ps);
    SplicingSubstitutes(code, qs);
    SubstitutionUnique(code, ps, qs, SpliceAll(code, ps), SpliceAll(code, qs));
  }

  /** Linking linked code again changes nothing. */
  lemma LinkIdempotent(code: string, files: seq<File>, addresses: map<string, string>)
    requires WellPlaced(code, FilePatches(files, addresses))
    ensures var ps := FilePatches(files, addresses);
      SpliceAll(SpliceAll(code, ps), ps) == SpliceAll(code, ps)
  {
    var ps := FilePatches(files, addresses);
    var linked := SpliceAll(code, ps);
    SplicingSubstitutes(code, ps);
    assert WellPlaced(linked, ps);
    SplicingSubstitutes(linked, ps);
    assert Substituted(linked, ps, linked);
    SubstitutionUnique(linked, ps, ps, SpliceAll(linked, ps), linked);
  }

  // ----- From the patches back to files, fixups and addresses -----

  lemma {:induction false} FixupPatchesAt(fs: seq<Fixup>, address: string)
    ensures |FixupPatches(fs, address)| == |fs|
    ensures forall k :: 0 <= k < |fs| ==> FixupPatches(fs, address)[k] == FixupPatch(fs[k], address)
  {
    if fs == [] {
    } else {
      FixupPatchesAt(fs[..|fs| - 1], address);
    }
  }

  /** The k-th fixup of the j-th library is that of a linked library, and `p` its patch. */
  predicate LibraryPatchAt(libs: seq<Library>, addresses: map<string, string>, j: int, k: int, p: Patch) {
    && 0 <= j < |libs| && libs[j].name in addresses && 0 <= k < |libs[j].fixups|
    && p == FixupPatch(libs[j].fixups[k], addresses[libs[j].name])
  }

  lemma {:induction false} WhereInLibraries(libs: seq<Library>, addresses: map<string, string>, p: Patch) returns (j: int, k: int)
    requires p in LibraryPatches(libs, addresses)
    ensures LibraryPatchAt(libs, addresses, j, k, p)
  {
    var n := |libs| - 1;
    if p in LibraryPatches(libs[..n], addresses) {
      j, k := WhereInLibraries(libs[..n], addresses, p);
    } else {
      FixupPatchesAt(libs[n].fixups, addresses[libs[n].name]);
      j := n;
      k :| 0 <= k < |libs[n].fixups| && FixupPatches(libs[n].fixups, addresses[libs[n].name])[k] == p;
    }
  }

  lemma {:induction false} InLibraryPatches(libs: seq<Library>, addresses: map<string, string>, j: int, k: int, p: Patch)
    requires LibraryPatchAt(libs, addresses, j, k, p)
    ensures p in LibraryPatches(libs, addresses)
  {
    var n := |libs| - 1;
    if j < n {
      InLibraryPatches(libs[..n], addresses, j, k, p);
    } else {
      FixupPatchesAt(libs[n].fixups, addresses[libs[n].name]);
      assert FixupPatches(libs[n].fixups, addresses[libs[n].name])[k] == p;
    }
  }

  predicate FilePatchAt(files: seq<File>, addresses: map<string, string>, i: int, j: int, k: int, p: Patch) {
    Linked(files, addresses, i, j, k) && p == FixupPatch(FixupAt(files, i, j, k), AddressAt(files, addresses, i, j))
  }

  lemma {:induction false} WhereInFiles(files: seq<File>, addresses: map<string, string>, p: Patch) returns (i: int, j: int, k: int)
    requires p in FilePatches(files, addresses)
    ensures FilePatchAt(files, addresses, i, j, k, p)
  {
    var n := |files| - 1;
    if p in FilePatches(files[..n], addresses) {
      i, j, k := WhereInFiles(files[..n], addresses, p);
    } else {
      i := n;
      j, k := WhereInLibraries(files[n].libraries, addresses, p);
    }
  }

  lemma {:induction false} InFilePatches(files: seq<File>, addresses: map<string, string>, i: int, j: int, k: int, p: Patch)
    requires FilePatchAt(files, addresses, i, j, k, p)
    ensures p in FilePatches(files, addresses)
  {
    var n := |files| - 1;
    if i < n {
      InFilePatches(files[..n], addresses, i, j, k, p);
    } else {
      InLibraryPatches(files[n].libraries, addresses, j, k, p);
    }
  }

  /** Two lists of well-placed patches that are disjoint from each other are well placed together. */
  lemma WellPlacedTogether(code: string, ps: seq<Patch>, qs: seq<Patch>)
    requires WellPlaced(code, ps) && WellPlaced(code, qs)
    requires forall p, q :: p in ps && q in qs ==> Disjoint(p, q)
    ensures WellPlaced(code, ps + qs)
  {
    forall j, k | 0 <= j < k < |ps + qs|
      ensures Disjoint((ps + qs)[j], (ps + qs)[k])
    {
      if k < |ps| {
        assert Disjoint(ps[j], ps[k]);
      } else if j >= |ps| {
        assert Disjoint(qs[j - |ps|], qs[k - |ps|]);
      } else {
        assert ps[j] in ps && qs[k - |ps|] in qs;
      }
    }
  }

  lemma PatchesOfApart(f: Fixup, g: Fixup, address: string, address': string)
    requires Apart(f, g)
    ensures Disjoint(FixupPatch(f, address), FixupPatch(g, address'))
  {
  }

  lemma FixupPatchesWellPlaced(code: string, fs: seq<Fixup>, address: string)
    requires forall k :: 0 <= k < |fs| ==> FixupFitsCode(code, fs[k], address)
    requires forall k, l :: 0 <= k < l < |fs| ==> Apart(fs[k], fs[l])
    ensures WellPlaced(code, FixupPatches(fs, address))
  {
    FixupPatchesAt(fs, address);
    forall k | 0 <= k < |fs|
      ensures Fits(code, FixupPatches(fs, address)[k])
    {
      FixupFits(code, fs[k], address);
    }
    forall k, l | 0 <= k < l < |fs|
      ensures Disjoint(FixupPatches(fs, address)[k], FixupPatches(fs, address)[l])
    {
      PatchesOfApart(fs[k], fs[l], address, address);
    }
  }

  /** The libraries of one file, up to the n-th. */
  lemma {:induction false} LibraryPatchesWellPlaced(code: string, files: seq<File>, addresses: map<string, string>, i: nat, n: nat)
    requires i < |files| && n <= |files[i].libraries| && AllFit(code, files, addresses) && AllApart(files, addresses)
    ensures WellPlaced(code, LibraryPatches(files[i].libraries[..n], addresses))
  {
    hide WellPlaced, FixupFitsCode, Apart, FixupPatches, LibraryPatches;
    var libs := files[i].libraries;
    if n == 0 {
      NoPatches(code, addresses);
      assert libs[..0] == [];
    } else {
      var lib := libs[n - 1];
      LibraryPatchesWellPlaced(code, files, addresses, i, n - 1);
      OneMoreLibrary(libs, n - 1, addresses);
      if lib.name in addresses {
        var address := addresses[lib.name];
        assert forall k :: 0 <= k < |lib.fixups| ==> Linked(files, addresses, i, n - 1, k) && FixupAt(files, i, n - 1, k) == lib.fixups[k];
        FixupPatchesWellPlaced(code, lib.fixups, address);
        FixupPatchesAt(lib.fixups, address);
        forall p, q | p in LibraryPatches(libs[..n - 1], addresses) && q in FixupPatches(lib.fixups, address)
          ensures Disjoint(p, q)
        {
          var j, k := WhereInLibraries(libs[..n - 1], addresses, p);
          var l :| 0 <= l < |lib.fixups| && FixupPatches(lib.fixups, address)[l] == q;
          assert Linked(files, addresses, i, j, k) && FixupAt(files, i, j, k) == libs[j].fixups[k];
          PatchesOfApart(libs[j].fixups[k], lib.fixups[l], addresses[libs[j].name], address);
        }
        WellPlacedTogether(code, LibraryPatches(libs[..n - 1], addresses), FixupPatches(lib.fixups, address));
      }
    }
  }

  lemma NoPatches(code: string, addresses: map<string, string>)
    ensures WellPlaced(code, LibraryPatches([], addresses)) && WellPlaced(code, FilePatches([], addresses))
  {
  }

  lemma {:induction false} FilePatchesWellPlaced(code: string, files: seq<File>, addresses: map<string, string>, n: nat)
    requires n <= |files| && AllFit(code, files, addresses) && AllApart(files, addresses)
    ensures WellPlaced(code, FilePatches(files[..n], addresses))
  {
    hide WellPlaced, FixupFitsCode, Apart, FilePatches, LibraryPatches, AllFit;
    if n == 0 {
      NoPatches(code, addresses);
      assert files[..0] == [];
    } else {
      var libs := files[n - 1].libraries;
      FilePatchesWellPlaced(code, files, addresses, n - 1);
      OneMoreFile(files, n - 1, addresses);
      LibraryPatchesWellPlaced(code, files, addresses, n - 1, |libs|);
      assert libs[..|libs|] == libs;
      forall p, q | p in FilePatches(files[..n - 1], addresses) && q in LibraryPatches(libs, addresses)
        ensures Disjoint(p, q)
      {
        var i, j, k := WhereInFiles(files[..n - 1], addresses, p);
        var j', k' := WhereInLibraries(libs, addresses, q);
        assert Linked(files, addresses, i, j, k) && Linked(files, addresses, n - 1, j', k');
        PatchesOfApart(FixupAt(files, i, j, k), FixupAt(files, n - 1, j', k'), AddressAt(files, addresses, i, j), AddressAt(files, addresses, n - 1, j'));
      }
      WellPlacedTogether(code, FilePatches(files[..n - 1], addresses), LibraryPatches(libs, addresses));
    }
  }

  lemma LinkedCharacters(code: string, ps: seq<Patch>, linked: string, f: Fixup, address: string)
    requires Substituted(code, ps, linked) && FixupFitsCode(code, f, address) && FixupPatch(f, address) in ps
    ensures linked[2 + 2 * f.start..2 + 2 * (f.start + f.length)] == address[2..]
  {
    FixupFits(code, f, address);
    var a :| 0 <= a < |ps| && ps[a] == FixupPatch(f, address);
    forall d | 0 <= d < 2 * f.length
      ensures linked[2 + 2 * f.start..2 + 2 * (f.start + f.length)][d] == address[2..][d]
    {
      assert Covers(ps[a], 2 + 2 * f.start + d);
    }
  }

  lemma OldCharacters(code: string, ps: seq<Patch>, linked: string)
    requires Substituted(code, ps, linked)
    ensures |linked| == |code|
    ensures forall x :: 0 <= x < |code| && (forall a :: 0 <= a < |ps| ==> !Covers(ps[a], x)) ==> linked[x] == code[x]
  {
  }

  /** So splicing the patches links every fixup in place. */
  lemma SplicingLinks(code: string, files: seq<File>, addresses: map<string, string>)
    requires AllFit(code, files, addresses) && AllApart(files, addresses)
    ensures LinkedInPlace(code, files, addresses, SpliceAll(code, FilePatches(files, addresses)))
  {
    hide WellPlaced, FilePatches, SpliceAll, AllApart, Substituted;
    var ps := FilePatches(files, addresses);
    var linked := SpliceAll(code, ps);
    FilePatchesWellPlaced(code, files, addresses, |files|);
    assert files[..|files|] == files;
    SplicingSubstitutes(code, ps);
    OldCharacters(code, ps, linked);
    forall i, j, k | Linked(files, addresses, i, j, k)
      ensures var f := FixupAt(files, i, j, k);
        linked[2 + 2 * f.start..2 + 2 * (f.start + f.length)] == AddressAt(files, addresses, i, j)[2..]
    {
      var f, address := FixupAt(files, i, j, k), AddressAt(files, addresses, i, j);
      var p := FixupPatch(f, address);
      InFilePatches(files, addresses, i, j, k, p);
      LinkedCharacters(code, ps, linked, f, address);
    }
    forall x | 0 <= x < |code| && Untouched(files, addresses, x)
      ensures linked[x] == code[x]
    {
      forall a | 0 <= a < |ps|
        ensures !Covers(ps[a], x)
      {
        var i, j, k := WhereInFiles(files, addresses, ps[a]);
        assert !Within(FixupAt(files, i, j, k), x);
      }
    }
  }
}
