/** The extent of a loaded image (src/loader/formats/elfloader.c:110-151). */
module ElfLoader {
  import opened Words

  const PT_LOAD := 1

  /** The fields of struct elf32_phdr that are looked at. */
  datatype ProgramHeader = ProgramHeader(kind: nat, offset: Word, vaddr: Word, filesz: Word) {
    function End(): Word {
      (vaddr + filesz) % WORD_LIMIT
    }
  }

  /** The headers of loadable segments */
  ghost function Loads(headers: seq<ProgramHeader>): (r: seq<ProgramHeader>)
    ensures forall h :: h in r <==> h in headers && h.kind == 1
  {
    if headers == [] then []
    else
      var last := headers[|headers| - 1];
      assert headers == headers[..|headers| - 1] + [last];
      var before := Loads(headers[..|headers| - 1]);
      if last.kind == PT_LOAD then before + [last] else before
  }

  /** Segment i is the last one that starts at the address. */
  ghost predicate LastAt(loads: seq<ProgramHeader>, i: int, address: Word) {
    0 <= i < |loads| && loads[i].vaddr == address && forall j | i < j < |loads| :: loads[j].vaddr != address
  }

  /** It is the last one that ends there. */
  ghost predicate LastTo(loads: seq<ProgramHeader>, i: int, address: Word) {
    0 <= i < |loads| && loads[i].End() == address && forall j | i < j < |loads| :: loads[j].End() != address
  }

  /** The base is the address of one of the segments, and the lowest unless some segment starts at
      address 0, which the code also takes to mean that no base is set yet. Of the segments that
      start there the last one says where the base is in memory. */
  ghost predicate IsBase(loads: seq<ProgramHeader>, memory: Word, virtual: Word, physical: Word) {
    && (virtual == 0 <==> loads == [] || loads[|loads| - 1].vaddr == 0)
    && (loads == [] ==> physical == 0)
    && (loads != [] ==> exists i :: LastAt(loads, i, virtual) && physical == (memory + loads[i].offset) % WORD_LIMIT)
    && ((forall h | h in loads :: h.vaddr != 0) ==> forall h | h in loads :: virtual <= h.vaddr)
  }

  /** The end is the highest end of a segment, in memory that of the last one that ends there. */
  ghost predicate IsEnd(loads: seq<ProgramHeader>, memory: Word, virtual: Word, physical: Word) {
    && (loads == [] ==> virtual == 0 && physical == 0)
    && (loads != [] ==> exists i :: LastTo(loads, i, virtual)
                                    && physical == (memory + loads[i].offset + loads[i].filesz) % WORD_LIMIT)
    && forall h | h in loads :: h.End() <= virtual
  }

  lemma BaseTaken(loads: seq<ProgramHeader>, h: ProgramHeader, memory: Word, v: Word, p: Word)
    requires IsBase(loads, memory, v, p) && (v >= h.vaddr || v == 0)
    ensures IsBase(loads + [h], memory, h.vaddr, (memory + h.offset) % WORD_LIMIT)
  {
    assert LastAt(loads + [h], |loads|, h.vaddr);
  }

  lemma BaseStays(loads: seq<ProgramHeader>, h: ProgramHeader, memory: Word, v: Word, p: Word)
    requires IsBase(loads, memory, v, p) && v < h.vaddr && v != 0
    ensures IsBase(loads + [h], memory, v, p)
  {
    var i :| LastAt(loads, i, v) && p == (memory + loads[i].offset) % WORD_LIMIT;
    assert LastAt(loads + [h], i, v) && (loads + [h])[i] == loads[i];
  }

  lemma EndTaken(loads: seq<ProgramHeader>, h: ProgramHeader, memory: Word, v: Word, p: Word)
    requires IsEnd(loads, memory, v, p) && (v <= h.End() || v == 0)
    ensures IsEnd(loads + [h], memory, h.End(), (memory + h.offset + h.filesz) % WORD_LIMIT)
  {
    hide ProgramHeader.End;
    assert LastTo(loads + [h], |loads|, h.End());
  }

  lemma EndStays(loads: seq<ProgramHeader>, h: ProgramHeader, memory: Word, v: Word, p: Word)
    requires IsEnd(loads, memory, v, p) && h.End() < v
    ensures IsEnd(loads + [h], memory, v, p)
  {
    hide ProgramHeader.End;
    if loads != [] {
      var i :| LastTo(loads, i, v) && p == (memory + loads[i].offset + loads[i].filesz) % WORD_LIMIT;
      assert LastTo(loads + [h], i, v) && (loads + [h])[i] == loads[i];
    }
  }

  class ElfFile {
    const memory: Word
    var virtualBaseAddress: Word
    var virtualEndAddress: Word
    var physicalBaseAddress: Word
    var physicalEndAddress: Word

    /** elf_file_new: the struct is cleared. */
    constructor (memory: Word)
      ensures this.memory == memory && Extent([])
    {
      this.memory := memory;
      virtualBaseAddress, virtualEndAddress, physicalBaseAddress, physicalEndAddress := 0, 0, 0, 0;
    }

    ghost predicate Base(loads: seq<ProgramHeader>)
      reads this
    {
      IsBase(loads, memory, virtualBaseAddress, physicalBaseAddress)
    }

    ghost predicate End(loads: seq<ProgramHeader>)
      reads this
    {
      IsEnd(loads, memory, virtualEndAddress, physicalEndAddress)
    }

    ghost predicate Extent(loads: seq<ProgramHeader>)
      reads this
    {
      Base(loads) && End(loads)
    }

    /** elf_process_phdr_pt_load */
    method ProcessLoad(phdr: ProgramHeader, ghost loads: seq<ProgramHeader>) returns (res: int)
      requires Extent(loads)
      modifies this
      ensures res == 0 && Extent(loads + [phdr])
    {
      hide IsBase, IsEnd;
      if virtualBaseAddress >= phdr.vaddr || virtualBaseAddress == 0 {
        BaseTaken(loads, phdr, memory, virtualBaseAddress, physicalBaseAddress);
        virtualBaseAddress := phdr.vaddr;
        physicalBaseAddress := (memory + phdr.offset) % WORD_LIMIT;
      } else {
        BaseStays(loads, phdr, memory, virtualBaseAddress, physicalBaseAddress);
      }
      var endVirtualAddress := (phdr.vaddr + phdr.filesz) % WORD_LIMIT;
      if virtualEndAddress <= endVirtualAddress || virtualEndAddress == 0 {
        EndTaken(loads, phdr, memory, virtualEndAddress, physicalEndAddress);
        virtualEndAddress := endVirtualAddress;
        physicalEndAddress := (memory + phdr.offset + phdr.filesz) % WORD_LIMIT;
      } else {
        EndStays(loads, phdr, memory, virtualEndAddress, physicalEndAddress);
      }
      return 0;
    }

    /** elf_process_pheaders on a file just read */
    method ProcessHeaders(headers: seq<ProgramHeader>) returns (res: int)
      requires Extent([])
      modifies this
      ensures res == 0 && Extent(Loads(headers))
    {
      hide Extent, ProgramHeader.End;
      res := 0;
      for i := 0 to |headers|
        invariant res == 0 && Extent(Loads(headers[..i]))
      {
        assert headers[..i + 1][..i] == headers[..i] && headers[..i + 1][i] == headers[i];
        if headers[i].kind == PT_LOAD {
          res := ProcessLoad(headers[i], Loads(headers[..i]));
        }
        if res < 0 {
          break;
        }
      }
      assert headers[..|headers|] == headers;
    }

    /** The base is the lowest address of the image exactly when no segment starts at
        address 0, or the last one does. */
    lemma LowestIff(loads: seq<ProgramHeader>)
      requires loads != [] && Base(loads)
      ensures (forall h | h in loads :: virtualBaseAddress <= h.vaddr)
         <==> ((exists h :: h in loads && h.vaddr == 0) ==> loads[|loads| - 1].vaddr == 0)
    {
      assert loads[|loads| - 1] in loads;
    }
  }

  /** A segment at 0 and one at 0x1000: the base is 0x1000, above the lowest address. */
  method ZeroSegmentForgotten() returns (file: ElfFile, loads: seq<ProgramHeader>)
    ensures fresh(file) && file.Extent(loads)
    ensures exists h :: h in loads && h.vaddr == 0 && h.vaddr < file.virtualBaseAddress == 0x1000
  {
    hide IsBase, IsEnd;
    var first, second := ProgramHeader(PT_LOAD, 0, 0, 16), ProgramHeader(PT_LOAD, 0x1000, 0x1000, 16);
    file := new ElfFile(0x1000000);
    var _ := file.ProcessLoad(first, []);
    assert [] + [first] == [first];
    var _ := file.ProcessLoad(second, [first]);
    loads := [first, second];
    assert [first] + [second] == loads && first in loads;
    TwoSegments(loads, file.memory, file.virtualBaseAddress, file.physicalBaseAddress);
  }

  lemma TwoSegments(loads: seq<ProgramHeader>, memory: Word, v: Word, p: Word)
    requires IsBase(loads, memory, v, p) && |loads| == 2 && loads[0].vaddr == 0 && loads[1].vaddr == 0x1000
    ensures v == 0x1000
  {
    var i :| LastAt(loads, i, v);
    assert i == 0 || i == 1;
  }
}
