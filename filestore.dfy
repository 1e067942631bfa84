/**
 * The stdio calls of otp.c over an abstract filesystem: `fopen` in the modes
 * "r" and "w+", whole-pad `fread` and `fwrite`, and `fclose`. Files are
 * sequences of C `int` words keyed by path.
 */
module FileStore {
  import opened Optional

  /** A C `int`, the element type of the pad buffers. */
  newtype Word = x: int | -0x8000_0000 <= x < 0x8000_0000

  /** Words in a pad: `sizeof(magic) / sizeof(int)` for `int magic[1024]`. */
  const PadWords: nat := 1024

  /** The two `fopen` modes otp.c uses. */
  datatype Mode = Read /* "r" */ | WritePlus /* "w+" */

  datatype Handle = Handle(path: string, mode: Mode)

  type Files = map<string, seq<Word>>

  /**
   * Whether `fopen(path, mode)` succeeds: "r" needs an existing file, "w+"
   * needs a path where a file may be created or truncated.
   */
  predicate Opens(files: Files, readOnly: set<string>, path: string, mode: Mode)
  {
    match mode
    case Read => path in files
    case WritePlus => path !in readOnly
  }

  /** The files after `fopen(path, mode)`: "w+" creates or truncates. */
  function AfterOpen(files: Files, readOnly: set<string>, path: string, mode: Mode): (after: Files)
    ensures files.Keys <= after.Keys <= files.Keys + {path}
    ensures forall p | p in files && p != path :: after[p] == files[p]
    ensures path in after <==> path in files || Opens(files, readOnly, path, mode)
    ensures path in files && (mode == Read || !Opens(files, readOnly, path, mode)) ==> after[path] == files[path]
    ensures Opens(files, readOnly, path, mode) && mode == WritePlus ==> after[path] == []
  {
    if Opens(files, readOnly, path, mode) && mode == WritePlus then files[path := []] else files
  }

  /**
   * The buffer `fread(buf, sizeof(int), PadWords, f)` leaves behind: the
   * file's first PadWords words, and past a short file whatever the stack
   * held before (`uninit`).
   */
  function ReadBuffer(contents: seq<Word>, uninit: seq<Word>): seq<Word>
    requires |uninit| == PadWords
  {
    if |contents| >= PadWords then contents[..PadWords] else contents + uninit[|contents|..]
  }

  /** The buffer holds PadWords words: the file's, then the stack's. */
  lemma ReadBufferContents(contents: seq<Word>, uninit: seq<Word>)
    requires |uninit| == PadWords
    ensures |ReadBuffer(contents, uninit)| == PadWords
    ensures forall i | 0 <= i < PadWords && i < |contents| :: ReadBuffer(contents, uninit)[i] == contents[i]
    ensures forall i | |contents| <= i < PadWords :: ReadBuffer(contents, uninit)[i] == uninit[i]
  {
  }

  /** A file after `fwrite(data, ...)` on a handle still at offset 0. */
  function WriteAtStart(contents: seq<Word>, data: seq<Word>): seq<Word>
  {
    if |contents| <= |data| then data else data + contents[|data|..]
  }

  /** The data replaces the start of the file; a longer file keeps its tail. */
  lemma WriteAtStartContents(contents: seq<Word>, data: seq<Word>)
    ensures |WriteAtStart(contents, data)| == if |contents| <= |data| then |data| else |contents|
    ensures WriteAtStart(contents, data)[..|data|] == data
    ensures forall i | |data| <= i < |contents| :: WriteAtStart(contents, data)[i] == contents[i]
  {
  }

  /** Writing a pad into a truncated file and reading it back gives the pad. */
  lemma WriteThenRead(data: seq<Word>, uninit: seq<Word>)
    requires |data| == PadWords && |uninit| == PadWords
    ensures ReadBuffer(WriteAtStart([], data), uninit) == data
  {
  }

  /**
   * The filesystem: file contents by path, the paths where "w+" fails
   * (missing directory, read-only volume, permissions), and the open handles.
   */
  class FileSystem {
    var files: Files
    const readOnly: set<string>
    var handles: multiset<Handle>

    constructor (files0: Files, readOnly0: set<string>)
      ensures files == files0 && readOnly == readOnly0 && handles == multiset{}
    {
      files := files0;
      readOnly := readOnly0;
      handles := multiset{};
    }

    /** `fopen(path, mode)`. */
    method Open(path: string, mode: Mode) returns (f: Option<Handle>)
      modifies this
      ensures f == if Opens(old(files), readOnly, path, mode) then Some(Handle(path, mode)) else None
      ensures files == AfterOpen(old(files), readOnly, path, mode)
      ensures handles == if f.Some? then old(handles) + multiset{f.value} else old(handles)
    {
      if Opens(files, readOnly, path, mode) {
        if mode == WritePlus {
          files := files[path := []];
        }
        f := Some(Handle(path, mode));
        handles := handles + multiset{f.value};
      } else {
        f := None;
      }
    }

    /** `fclose(f)`; flushing is not modelled (writes take effect at once). */
    method Close(f: Handle)
      requires f in handles
      modifies this
      ensures handles == old(handles) - multiset{f}
      ensures files == old(files)
    {
      handles := handles - multiset{f};
    }

    /** `fread` of one pad from a handle opened for reading, at offset 0. */
    method ReadPad(f: Handle, uninit: seq<Word>) returns (buf: seq<Word>)
      requires f in handles && f.mode == Read && f.path in files
      requires |uninit| == PadWords
      ensures buf == ReadBuffer(files[f.path], uninit)
    {
      buf := ReadBuffer(files[f.path], uninit);
    }

    /** `fwrite` of `data` on a handle opened with "w+" and not yet written. */
    method WritePad(f: Handle, data: seq<Word>)
      requires f in handles && f.mode == WritePlus && f.path in files
      modifies this
      ensures files == old(files)[f.path := WriteAtStart(old(files)[f.path], data)]
      ensures handles == old(handles)
    {
      files := files[f.path := WriteAtStart(files[f.path], data)];
    }
  }
}
