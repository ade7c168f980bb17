/** Mounting the built image with the kernel's driver, and reading its files back. */
module SeedMount {
  import opened Bytes
  import opened Disk
  import opened Geometry
  import opened Directories
  import opened ShortNames
  import opened Volumes
  import opened Outcomes
  import opened Paths
  import opened Fat12
  import opened Driver
  import opened SeedVolume
  import opened ImageBuilder

  /** fat12_init on a disk that carries the finished image. */
  method MountSeed(b: Builder, dev: AtaDevice, lba: nat) returns (res: int, fs: FileSystem)
    requires b.Finished() && dev.Valid() && dev.medium == b.OnDisk() && lba == b.lba
    modifies dev`clock
    ensures dev.clock >= old(dev.clock) && (res == OK || (res == ERR_IO && !dev.FineSince(old(dev.clock))))
    ensures fresh(fs) && fs.dev == dev && fresh(fs.root) && fresh(fs.buffer) && fresh(fs.table) && fresh(fs.table.bytes)
    ensures res == OK ==> fs.Whole({}) && fs.mirrored && fs.ready && fs.View() == b.View() && fs.tree == b.tree
  {
    hide WellFormed, Accept, ParseBpb, Clusters, FatCopy;
    fs := new FileSystem(dev);
    res := fs.Init(lba, b.tree);
    if res == OK {
      assert fs.geo == Seed(lba);
    }
  }

  /** A plain name leads from the root to the entry of that name in the root. */
  lemma RootName(img: Image, t: Tree, name: seq<byte>)
    requires Encodable(name)
    ensures Resolve(img, t.alloc, TheRoot, name) == Target(0, ToShortName(name))
  {
    EncodableIsComponent(name);
    ComponentsOfComponent(name);
    ToShortNameAgrees(name);
    ComponentIsRelative(name);
    assert [name][..0] == [];
  }

  lemma ComponentIsRelative(name: seq<byte>)
    requires IsComponent(name)
    ensures Start(TheRoot, name) == TheRoot
  {
  }

  /** The kernel mounts the image that the script has built and reads a file by its name: it gets the very bytes that
      the script was given. */
  method ReadBack(b: Builder, dev: AtaDevice, lba: nat, name: seq<byte>, out: array<byte>) returns (res: int, size: nat)
    requires b.Finished() && dev.Valid() && dev.medium == b.OnDisk() && lba == b.lba && Encodable(name)
    requires out != b.image && out != b.fat && out != b.rootDir
    modifies dev`clock, out
    ensures res == ERR_IO ==> !dev.FineSince(old(dev.clock))
    ensures res != ERR_IO ==>
              match old(FileAt(b.View(), b.tree, 0, ToShortName(name)))
              case Some(content) => if |content| <= out.Length then res == OK && size == |content| && out[..size] == content
                                    else res == ERR_BUFFER_SMALL
              case None => res in {ERR_NOT_FILE, ERR_NOT_FOUND}
  {
    hide WellFormed, FileSystem.View, FileSystem.Synced, FileSystem.Buffers, FileAt, FolderAt, AttrAt, Resolve, Builder.View,
         Builder.Finished, PositionOk, CwdText, Encodable, ToShortName;
    var fs;
    res, fs := MountSeed(b, dev, lba);
    size := 0;
    if res != OK { return; }
    var driver := new Fat12Driver(fs);
    driver.FreshIsReady();
    RootName(fs.View(), fs.tree, name);
    res, size := driver.ReadFile(name, out, out.Length);
  }
}
