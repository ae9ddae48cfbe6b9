/**
 The file backend as an object.  Files are named by the path of their slot; a pattern without time fields that
 names the rotation index, or has a single slot, gives every slot a path of its own.
 */
module FileBackend {
  import opened PathFormat
  import opened FileRing

  // A time to expand patterns with that do not depend on it.
  const MIDNIGHT := Tm(1970, 0, 1, 4, 0, 0, 0, 0)

  // ---- files and slots

  /** The slots whose files exist, with what is in them. */
  function SlotView(files: map<string, string>, paths: seq<string>): map<nat, string> {
    map i: nat | i < |paths| && paths[i] in files :: files[paths[i]]
  }

  predicate Distinct(paths: seq<string>) {
    forall i, j | 0 <= i < j < |paths| :: paths[i] != paths[j]
  }

  /** The paths of the first `r` slots, which do not depend on the time if the pattern does not. */
  function PathsOf(pattern: string, r: nat): (paths: seq<string>)
    ensures |paths| == r && forall i | 0 <= i < r :: paths[i] == Expand(pattern, MIDNIGHT, i)
  {
    seq(r, i requires 0 <= i < r => Expand(pattern, MIDNIGHT, i))
  }

  predicate UsablePattern(pattern: string, rotateSize: nat) {
    Timeless(pattern) && (rotateSize <= 1 || HasIndex(pattern))
  }

  /** Such a pattern gives every slot a path of its own, the same at all times. */
  lemma SlotPaths(pattern: string, r: nat, now: Tm)
    requires UsablePattern(pattern, r)
    ensures Distinct(PathsOf(pattern, r))
    ensures forall i | 0 <= i < r :: Expand(pattern, now, i) == PathsOf(pattern, r)[i]
  {
    PathPerSlot(pattern, MIDNIGHT, r);
    forall i | 0 <= i < r ensures Expand(pattern, now, i) == PathsOf(pattern, r)[i] {
      TimelessPath(pattern, MIDNIGHT, now, i);
    }
  }

  /** Where paths are distinct, writing a file changes the content of one slot. */
  lemma WriteOne(files: map<string, string>, paths: seq<string>, i: nat, text: string)
    requires Distinct(paths) && i < |paths|
    ensures SlotView(files[paths[i] := text], paths) == SlotView(files, paths)[i := text]
  {
    var before, after := SlotView(files, paths), SlotView(files[paths[i] := text], paths);
    forall k: nat { OneSlot(files, paths, i, text, k); }
    SameMap(after, before[i := text]);
  }

  lemma SameMap(a: map<nat, string>, b: map<nat, string>)
    requires forall k: nat :: k in a <==> k in b
    requires forall k: nat | k in a :: a[k] == b[k]
    ensures a == b
  {
  }

  lemma OneSlot(files: map<string, string>, paths: seq<string>, i: nat, text: string, k: nat)
    requires Distinct(paths) && i < |paths|
    ensures var before, after := SlotView(files, paths), SlotView(files[paths[i] := text], paths);
            (k in after <==> k in before || k == i) && (k in after ==> after[k] == if k == i then text else before[k])
  {
    if k < |paths| && k != i {
      assert paths[k] != paths[i];
    }
  }

  lemma ViewText(files: map<string, string>, paths: seq<string>, i: nat)
    requires i < |paths|
    ensures SlotText(SlotView(files, paths), i) == if paths[i] in files then files[paths[i]] else ""
  {
  }

  // ---- the backend

  class FileSystemBackend {
    const pattern: string
    const fileSize: nat
    const rotateSize: nat
    // What the size probe reports for the file of a slot, if it exists.
    const probe: nat -> nat
    var files: map<string, string>
    var isInitialized: bool
    var isOpen: bool
    var rotateIndex: nat
    var writtenSize: nat
    ghost var exported: seq<string>

    function Slots(): (r: nat)
      ensures r > 0
    {
      if rotateSize > 0 then rotateSize else 1
    }

    function Paths(): seq<string> {
      PathsOf(pattern, Slots())
    }

    /** The pattern has no time fields and gives every slot a path of its own. */
    predicate Usable() {
      UsablePattern(pattern, rotateSize)
    }

    function View(): map<nat, string>
      reads this
    {
      SlotView(files, Paths())
    }

    /** Between exports: the ring holds the last chunks of all that was exported, the current one open. */
    ghost predicate Valid()
      reads this
    {
      && Usable()
      && if !isInitialized then files == map[] && exported == []
         else isOpen && Shows(fileSize, Slots(), View(), rotateIndex, writtenSize, exported)
    }

    constructor (pattern: string, fileSize: nat, rotateSize: nat, probe: nat -> nat)
      requires UsablePattern(pattern, rotateSize)
      ensures Valid() && exported == []
      ensures this.fileSize == fileSize && this.rotateSize == rotateSize && this.pattern == pattern
    {
      this.pattern, this.fileSize, this.rotateSize, this.probe := pattern, fileSize, rotateSize, probe;
      files, isInitialized, isOpen, rotateIndex, writtenSize, exported := map[], false, false, 0, 0, [];
    }

    method ResetLogFile()
      modifies this`isOpen, this`writtenSize
      ensures !isOpen && writtenSize == 0
    {
      isOpen, writtenSize := false, 0;
    }

    /** Opens the current slot for appending; a file that is opened anew for an export is emptied first. */
    method OpenLogFile(destroyContent: bool, now: Tm)
      requires Usable() && rotateIndex < Slots()
      modifies this`files, this`isOpen, this`writtenSize
      ensures isOpen
      ensures old(isOpen) ==> files == old(files) && writtenSize == old(writtenSize)
      ensures !old(isOpen) ==>
                && View() == old(View())[rotateIndex :=
                               if destroyContent then "" else SlotText(old(View()), rotateIndex)]
                && writtenSize == |View()[rotateIndex]|
    {
      if isOpen {
        return;
      }
      ResetLogFile();
      SlotPaths(pattern, Slots(), now);
      var path := Expand(pattern, now, rotateIndex);
      ViewText(files, Paths(), rotateIndex);
      var content := if path in files && !destroyContent then files[path] else "";
      WriteOne(files, Paths(), rotateIndex, content);
      files := files[path := content];
      writtenSize := |content|;
      isOpen := true;
    }

    function Probed(held: map<string, string>, i: nat): nat
      requires i < Slots()
    {
      if Paths()[i] in held then probe(i) else 0
    }

    /** The files of the first `n` slots are all probed as full. */
    predicate FullUpTo(held: map<string, string>, n: nat)
      requires n <= Slots()
    {
      forall j: nat | j < n :: Probed(held, j) >= fileSize
    }

    /** Starts in the first slot whose probed size is below the limit, in slot 0 if there is none. */
    method Initialize(now: Tm)
      requires Usable() && !isInitialized
      modifies this
      ensures isInitialized && isOpen && exported == old(exported)
      ensures rotateIndex < Slots()
      ensures if fileSize > 0 && exists i: nat :: i < rotateSize && Probed(old(files), i) < fileSize
              then Probed(old(files), rotateIndex) < fileSize && FullUpTo(old(files), rotateIndex)
              else rotateIndex == 0
      ensures View() == old(View())[rotateIndex := SlotText(old(View()), rotateIndex)]
      ensures writtenSize == |View()[rotateIndex]|
    {
      isInitialized := true;
      rotateIndex := FirstFree(now);
      ResetLogFile();
      OpenLogFile(false, now);
    }

    /** The loop over the slots at the start. */
    method FirstFree(now: Tm) returns (index: nat)
      requires Usable()
      ensures index < Slots()
      ensures if fileSize > 0 && exists i: nat :: i < rotateSize && Probed(files, i) < fileSize
              then Probed(files, index) < fileSize && FullUpTo(files, index)
              else index == 0
    {
      SlotPaths(pattern, Slots(), now);
      for i := 0 to rotateSize
        invariant i <= Slots() && FullUpTo(files, i)
      {
        if fileSize == 0 {
          return 0;
        }
        var path := Expand(pattern, now, i);
        var existing := if path in files then probe(i) else 0;
        assert existing == Probed(files, i);
        if existing < fileSize {
          return i;
        }
      }
      return 0;
    }

    lemma FreshRing()
      ensures Shows(fileSize, Slots(), map[0 := ""], 0, 0, [])
    {
      SlotCycle(0, Slots(), Slots());
    }

    method RotateLog()
      modifies this`rotateIndex, this`isOpen, this`writtenSize
      requires rotateIndex < Slots()
      ensures rotateIndex == Next(old(rotateIndex), Slots())
      ensures !isOpen && writtenSize == 0
    {
      if rotateSize > 0 {
        NextIsModulo(rotateIndex, rotateSize);
        rotateIndex := (rotateIndex + 1) % rotateSize;
      } else {
        rotateIndex := 0;
      }
      ResetLogFile();
    }

    method MaybeRotateLog(dataSize: nat)
      requires rotateIndex < Slots()
      modifies this`rotateIndex, this`isOpen, this`writtenSize
      ensures var rotates := old(writtenSize) > 0 && old(writtenSize) + dataSize > fileSize;
              if rotates then rotateIndex == Next(old(rotateIndex), Slots()) && !isOpen && writtenSize == 0
              else rotateIndex == old(rotateIndex) && isOpen == old(isOpen) && writtenSize == old(writtenSize)
    {
      if writtenSize > 0 && writtenSize + dataSize > fileSize {
        RotateLog();
      }
    }

    /** Rotates if need be, then writes `data` behind what the current slot holds. */
    method Append(data: string, now: Tm)
      requires Usable() && isOpen && rotateIndex < Slots()
      modifies this`files, this`rotateIndex, this`isOpen, this`writtenSize
      ensures isOpen
      ensures var rotates := old(writtenSize) > 0 && old(writtenSize) + |data| > fileSize;
              && rotateIndex == (if rotates then Next(old(rotateIndex), Slots()) else old(rotateIndex))
              && View() == old(View())[rotateIndex :=
                             (if rotates then "" else SlotText(old(View()), rotateIndex)) + data]
              && writtenSize == |View()[rotateIndex]|
    {
      MaybeRotateLog(|data|);
      OpenLogFile(true, now);
      Write(data, now);
    }

    /** Writes at the end of the open file. */
    method Write(data: string, now: Tm)
      requires Usable() && rotateIndex < Slots()
      modifies this`files, this`writtenSize
      ensures View() == old(View())[rotateIndex := SlotText(old(View()), rotateIndex) + data]
      ensures writtenSize == |View()[rotateIndex]|
    {
      SlotPaths(pattern, Slots(), now);
      ViewText(files, Paths(), rotateIndex);
      var path := Expand(pattern, now, rotateIndex);
      var content := (if path in files then files[path] else "") + data;
      WriteOne(files, Paths(), rotateIndex, content);
      files := files[path := content];
      writtenSize := |content|;
    }

    method EnsureInitialized(now: Tm)
      requires Valid()
      modifies this
      ensures Valid() && isInitialized && exported == old(exported)
    {
      if !isInitialized {
        Initialize(now);
        assert Probed(old(files), 0) == 0;
        assert old(View()) == map[];
        assert rotateIndex == 0 && View() == map[0 := ""];
        FreshRing();
      }
    }

    /** One export keeps the ring and leaves the current file within the limit or just this message. */
    method Export(data: string, now: Tm)
      requires Valid()
      modifies this
      ensures Valid() && isInitialized
      ensures exported == old(exported) + [data]
      ensures writtenSize <= (if |data| > fileSize then |data| else fileSize)
    {
      EnsureInitialized(now);
      ShowsNext(fileSize, Slots(), View(), rotateIndex, writtenSize, exported, data);
      Append(data, now);
      exported := exported + [data];
    }

    /** At every moment between exports the files, read in ring order, end with the last byte exported. */
    lemma Contents()
      requires Valid() && isInitialized
      ensures rotateIndex < Slots()
      ensures RingText(View(), Slots(), rotateIndex) == Flatten(LastChunks(Chunks(fileSize, exported), Slots()))
      ensures exists lost: string :: Flatten(exported) == lost + RingText(View(), Slots(), rotateIndex)
    {
      ShowsSuffix(fileSize, Slots(), View(), rotateIndex, writtenSize, exported);
    }

    /** And they are together no larger than the slots times the larger of the limit and the largest message. */
    lemma Size(bound: nat)
      requires Valid() && isInitialized && fileSize <= bound && Bounded(exported, bound)
      ensures rotateIndex < Slots() && |RingText(View(), Slots(), rotateIndex)| <= Slots() * bound
    {
      ShowsBounded(fileSize, Slots(), View(), rotateIndex, writtenSize, exported, bound);
    }
  }
}
