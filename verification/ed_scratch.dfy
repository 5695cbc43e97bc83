/** src/bin/ed/buf.c: the scratch file that holds the text of the lines. */
module EdScratch {

  /** The file behind sfp, with its own position, and the statics sfseek and seek_write. */
  class Scratch {
    var file: string
    var pos: nat
    var sfseek: nat
    var seek_write: bool

    /** sfseek is where the file is positioned, and that is the end unless a seek is due. */
    ghost predicate Valid()
      reads this
    {
      sfseek == pos && pos <= |file| && (!seek_write ==> pos == |file|)
    }

    constructor ()
      ensures Valid() && file == ""
    {
      file, pos, sfseek, seek_write := "", 0, 0, false;
    }

    /** The file part of put_sbuf_line: write text at the end and tell where it starts. Nothing
        that was written before changes. */
    method Put(text: string) returns (seek: nat)
      requires Valid()
      modifies this
      ensures Valid() && file == old(file) + text
      ensures seek == old(|file|) && file[seek..seek + |text|] == text
    {
      if seek_write {
        pos := |file|;
        sfseek := pos;
        seek_write := false;
      }
      file := file[..pos] + text;
      pos := pos + |text|;
      seek := sfseek;
      sfseek := sfseek + |text|;
    }

    /** The file part of get_sbuf_line. */
    method Get(seek: nat, len: nat) returns (text: string)
      requires Valid() && seek + len <= |file|
      modifies this
      ensures Valid() && file == old(file)
      ensures text == file[seek..seek + len]
    {
      seek_write := true;
      if sfseek != seek {
        sfseek := seek;
        pos := sfseek;
      }
      text := file[pos..pos + len];
      pos := pos + len;
      sfseek := sfseek + len;
    }
  }
}
