/** What the plugin acts on: local files and the attached devices. Every change is recorded. */
module World {
  import opened Bytes
  import opened Client
  import opened Device
  import opened Optional
  import opened Paths
  import Wire

  type LocalPath = seq<byte>

  datatype LocalEntry = LocalEntry(data: seq<byte>, mtime: int)

  type Disk = map<LocalPath, LocalEntry>
  type Phones = map<string, Tree>

  datatype Snapshot = Snapshot(disk: Disk, phones: Phones)

  /** How a download went: what was written to the open file piece by piece, and the outcome. */
  datatype Download = Download(pieces: seq<seq<byte>>, err: AdbError)

  /** How an upload went, and what an unfinished one left at its target. Directories that have to be made for it get a
      mode and a date of the device's choosing. */
  datatype Upload = Upload(err: AdbError, partial: Option<seq<byte>>, dirMode: int, now: int, dirTimes: map<string, int>)

  function AfterUpload(t: Tree, path: string, content: seq<byte>, mode: int, mtime: int, u: Upload): Tree {
    var place := Resolve(path);
    var made := MakeDirs(t, ParentWfxDir(place), u.dirMode, u.now);
    Retimed(if u.err.Success? then made[place := File(content, mode, Wire.MtimeArg(mtime))]
            else if u.partial.Some? then made[place := File(u.partial.value, mode, u.now)]
            else t, u.dirTimes)
  }

  function PhonesAfterUpload(phones: Phones, serial: string, path: string, content: seq<byte>, mode: int, mtime: int,
                             u: Upload): Phones {
    if serial in phones then phones[serial := AfterUpload(phones[serial], path, content, mode, mtime, u)] else phones
  }

  /** Only an attached device can take a file. */
  function UploadError(phones: Phones, serial: string, u: Upload): AdbError {
    if u.err.Success? && serial !in phones then Error(CONNECTION_FAULT) else u.err
  }

  function AfterShell(phones: Phones, serial: string, commandLine: string, r: ShellReply): Phones {
    if serial in phones then phones[serial := r.effect(commandLine, phones[serial])] else phones
  }

  /** The conversation with the device's shell ran to its end. */
  predicate Answered(phones: Phones, serial: string, r: ShellReply) {
    serial in phones && r.connected
  }

  /** What there is after a trail of changes. */
  function Final(start: Snapshot, trail: seq<Snapshot>): Snapshot {
    if trail == [] then start else trail[|trail| - 1]
  }

  lemma FinalOfTwo(start: Snapshot, first: seq<Snapshot>, second: seq<Snapshot>)
    ensures Final(start, first + second) == Final(Final(start, first), second)
  {
  }

  class World {
    var disk: Disk
    var phones: Phones
    ghost var history: seq<Snapshot>

    constructor (disk: Disk, phones: Phones)
      ensures this.disk == disk && this.phones == phones && history == []
    {
      this.disk, this.phones, history := disk, phones, [];
    }

    function Now(): Snapshot
      reads this`disk, this`phones
    {
      Snapshot(disk, phones)
    }

    ghost method Record()
      modifies this`history
      ensures history == old(history) + [Snapshot(disk, phones)]
    {
      history := history + [Snapshot(disk, phones)];
    }

    /** open(O_WRONLY | O_CREAT | O_TRUNC): the file exists and is empty. */
    method OpenTruncated(path: LocalPath, now: int, works: bool) returns (ok: bool)
      modifies this`disk, this`history
      ensures ok == works
      ensures disk == if ok then old(disk)[path := LocalEntry([], now)] else old(disk)
      ensures history == if ok then old(history) + [Snapshot(disk, phones)] else old(history)
    {
      ok := works;
      if ok {
        disk := disk[path := LocalEntry([], now)];
        Record();
      }
    }

    /** write() of one piece to the end of a file. */
    method Append(path: LocalPath, piece: seq<byte>, now: int)
      requires path in disk
      modifies this`disk, this`history
      ensures disk == old(disk)[path := LocalEntry(old(disk)[path].data + piece, now)]
      ensures history == old(history) + [Snapshot(disk, phones)]
    {
      disk := disk[path := LocalEntry(disk[path].data + piece, now)];
      Record();
    }

    method Rename(from: LocalPath, to: LocalPath, works: bool) returns (ok: bool)
      requires from in disk
      modifies this`disk, this`history
      ensures ok == works
      ensures disk == if ok && from != to then (old(disk) - {from})[to := old(disk)[from]] else old(disk)
      ensures history == if ok then old(history) + [Snapshot(disk, phones)] else old(history)
    {
      ok := works;
      if ok {
        if from != to {
          disk := (disk - {from})[to := disk[from]];
        }
        Record();
      }
    }

    /** utimensat() of the modification time. */
    method Stamp(path: LocalPath, mtime: int, works: bool) returns (ok: bool)
      modifies this`disk, this`history
      ensures ok == (works && path in old(disk))
      ensures disk == if ok then old(disk)[path := old(disk)[path].(mtime := mtime)] else old(disk)
      ensures history == if ok then old(history) + [Snapshot(disk, phones)] else old(history)
    {
      ok := works && path in disk;
      if ok {
        disk := disk[path := disk[path].(mtime := mtime)];
        Record();
      }
    }

    method Unlink(path: LocalPath, works: bool) returns (ok: bool)
      modifies this`disk, this`history
      ensures ok == (works && path in old(disk))
      ensures disk == if ok then old(disk) - {path} else old(disk)
      ensures history == if ok then old(history) + [Snapshot(disk, phones)] else old(history)
    {
      ok := works && path in disk;
      if ok {
        disk := disk - {path};
        Record();
      }
    }

    method Shell(serial: string, commandLine: string, r: ShellReply) returns (connected: bool, output: string)
      modifies this`phones, this`history
      ensures connected == Answered(old(phones), serial, r) && output == if connected then r.output else ""
      ensures phones == AfterShell(old(phones), serial, commandLine, r)
      ensures history == old(history) + [Snapshot(disk, phones)]
    {
      connected := Answered(phones, serial, r);
      output := if connected then r.output else "";
      phones := AfterShell(phones, serial, commandLine, r);
      Record();
    }

    /** An upload to a device, as the sync conversation leaves it. */
    method Send(serial: string, path: string, content: seq<byte>, mode: int, mtime: int, u: Upload) returns (err: AdbError)
      modifies this`phones, this`history
      ensures err == UploadError(old(phones), serial, u)
      ensures phones == PhonesAfterUpload(old(phones), serial, path, content, mode, mtime, u)
      ensures history == old(history) + [Snapshot(disk, phones)]
    {
      err := UploadError(phones, serial, u);
      phones := PhonesAfterUpload(phones, serial, path, content, mode, mtime, u);
      Record();
    }
  }
}
