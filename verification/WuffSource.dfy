/** The file behind a Wuff handle, reached through the three callbacks of `struct wuff_callback`. */
module WuffSource {
  import opened Bytes

  /** The `got` bytes of the file at the cursor stand at `now[at..]`, and the rest is as it was. */
  ghost predicate Fetched(was: seq<byte>, now: seq<byte>, at: nat, file: seq<byte>, cursor: nat, got: nat) {
    && |now| == |was| && at + got <= |now| && (got > 0 ==> cursor + got <= |file|)
    && (forall j :: at <= j < at + got ==> now[j] == file[cursor + (j - at)])
    && (forall j :: 0 <= j < |now| && !(at <= j < at + got) ==> now[j] == was[j])
  }

  class Source {
    const file: seq<byte>
    /** Whether a read may answer fewer bytes than it could. */
    const shortReads: bool
    var cursor: nat
    /** How many calls have failed so far. */
    ghost var failures: nat

    constructor (file: seq<byte>, shortReads: bool)
      ensures this.file == file && this.shortReads == shortReads && cursor == 0 && failures == 0
    {
      this.file, this.shortReads := file, shortReads;
      cursor, failures := 0, 0;
    }

    /** Bytes between the cursor and the end of the file. */
    function Remaining(): nat
      reads this
    {
      if cursor <= |file| then |file| - cursor else 0
    }

    /** Answers up to `want` bytes at `dst[at..]`; nothing at all only at the end of the file. May fail, changing
        nothing. */
    method Read(dst: array<byte>, at: nat, want: nat) returns (ok: bool, got: nat)
      requires at + want <= dst.Length
      modifies this, dst
      ensures failures == old(failures) + (if ok then 0 else 1)
      ensures !ok ==> got == 0 && cursor == old(cursor) && dst[..] == old(dst[..])
      ensures got <= want && got <= old(Remaining())
      ensures ok && want > 0 && old(Remaining()) > 0 ==> got > 0
      ensures ok && !shortReads ==> got == if want <= old(Remaining()) then want else old(Remaining())
      ensures cursor == old(cursor) + got
      ensures Fetched(old(dst[..]), dst[..], at, file, old(cursor), got)
    {
      var fail: bool := *;
      if fail {
        failures := failures + 1;
        return false, 0;
      }
      var most := if want <= Remaining() then want else Remaining();
      got := most;
      if shortReads && most > 0 {
        var fewer: nat := *;
        if 0 < fewer < most {
          got := fewer;
        }
      }
      CopyInto(dst, at, file[if got == 0 then 0 else cursor..if got == 0 then 0 else cursor + got]);
      cursor := cursor + got;
      ok := true;
    }

    /** Answers the cursor. May fail. */
    method Tell() returns (ok: bool, at: nat)
      modifies this`failures
      ensures failures == old(failures) + (if ok then 0 else 1)
      ensures ok ==> at == cursor
    {
      ok, at := *, cursor;
      failures := failures + (if ok then 0 else 1);
    }

    /** Moves the cursor. May fail, changing nothing. */
    method Seek(to: nat) returns (ok: bool)
      modifies this
      ensures failures == old(failures) + (if ok then 0 else 1)
      ensures cursor == if ok then to else old(cursor)
    {
      ok := *;
      if ok {
        cursor := to;
      } else {
        failures := failures + 1;
      }
    }
  }
}
