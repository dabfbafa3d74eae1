/**
 * The transfer registry and the sender side of a transfer: a map from
 * transfer codes to stored file paths, and the byte stream a code's file
 * server writes to the one client it accepts.
 */
module Sharing {
  import opened Charset
  import Text

  /** Size of the buffer the copy loops read into. */
  const BufferSize: nat := 4096

  /** The one header line that precedes the file's bytes on the wire. */
  const HeaderPrefix: string := "Filename: "

  /** The header's prefix is ISO-8859-1 text without a newline. */
  lemma HeaderPrefixPlain()
    ensures IsLatin1(HeaderPrefix) && '\n' !in HeaderPrefix
  {
  }

  /** `Filename: `, the name, and the newline that ends the line. */
  function Header(fileName: string): (h: string)
    ensures |h| == |HeaderPrefix| + |fileName| + 1
    ensures h[..|HeaderPrefix|] == HeaderPrefix && h[|HeaderPrefix|..|h| - 1] == fileName && h[|h| - 1] == '\n'
  {
    HeaderPrefix + fileName + "\n"
  }

  /** What a file server writes for a stored file: the header with its base name, then the file. */
  function Frame(filePath: string, file: seq<byte>): (w: seq<byte>)
    ensures |w| == |Header(Text.GetName(filePath))| + |file|
    ensures w[..|w| - |file|] == Encode(Header(Text.GetName(filePath))) && w[|w| - |file|..] == file
  {
    Encode(Header(Text.GetName(filePath))) + file
  }

  /**
   * Copies `src` to the end of `sink` through a 4096-byte buffer, one read
   * at a time; each read fills at most the buffer and the loop stops at the
   * end of the stream. Every byte is written once and in order.
   */
  method CopyStream(src: seq<byte>, sink: seq<byte>) returns (out: seq<byte>)
    ensures out == sink + src
  {
    var buffer := new byte[BufferSize];
    out := sink;
    var pos := 0;
    while pos < |src|
      invariant 0 <= pos <= |src|
      invariant out == sink + src[..pos]
    {
      var bytesRead := if |src| - pos < BufferSize then |src| - pos else BufferSize;
      var k := 0;
      while k < bytesRead
        invariant 0 <= k <= bytesRead
        invariant buffer[..k] == src[pos..pos + k]
      {
        buffer[k] := src[pos + k];
        k := k + 1;
      }
      out := out + buffer[..bytesRead];
      assert src[..pos + bytesRead] == src[..pos] + src[pos..pos + bytesRead];
      pos := pos + bytesRead;
    }
    assert src[..pos] == src;
  }

  /**
   * The sender's handler: opening the stored file comes first, so a path
   * with no file behind it sends nothing before the socket is closed.
   * Otherwise the header line goes out, then the file through the copy loop.
   */
  method SendFile(filePath: string, disk: map<string, seq<byte>>) returns (wire: seq<byte>)
    ensures filePath !in disk ==> wire == []
    ensures filePath in disk ==> wire == Frame(filePath, disk[filePath])
  {
    if filePath !in disk {
      return [];
    }
    var fileName := Text.GetName(filePath);
    wire := CopyStream(disk[filePath], Encode(Header(fileName)));
  }

  /**
   * The first candidate code that is not yet a key of `files`: the code the
   * retry loop settles on when the generator yields `candidates` in order.
   */
  function FirstFree(candidates: seq<int>, files: map<int, string>): (code: int)
    requires exists c :: c in candidates && c !in files
    ensures code in candidates && code !in files
    ensures exists k :: 0 <= k < |candidates| && candidates[k] == code &&
                        forall j :: 0 <= j < k ==> candidates[j] in files
  {
    if candidates[0] !in files then candidates[0]
    else
      assert candidates[0] in files;
      var code := FirstFree(candidates[1..], files);
      var k :| 0 <= k < |candidates[1..]| && candidates[1..][k] == code &&
               forall j :: 0 <= j < k ==> candidates[1..][j] in files;
      assert candidates[k + 1] == code;
      assert forall j :: 0 <= j < k + 1 ==> candidates[j] in files by {
        forall j | 0 <= j < k + 1
          ensures candidates[j] in files
        {
          if j > 0 {
            assert candidates[j] == candidates[1..][j - 1];
          }
        }
      }
      code
  }

  /** Colliding candidates ahead of the first free one change nothing about the choice. */
  lemma {:induction false} FirstFreeSkips(taken: seq<int>, candidates: seq<int>, files: map<int, string>)
    requires forall c :: c in taken ==> c in files
    requires exists c :: c in candidates && c !in files
    ensures exists c :: c in taken + candidates && c !in files
    ensures FirstFree(taken + candidates, files) == FirstFree(candidates, files)
  {
    var c :| c in candidates && c !in files;
    assert c in taken + candidates;
    if taken != [] {
      assert (taken + candidates)[0] == taken[0];
      assert (taken + candidates)[1..] == taken[1..] + candidates;
      FirstFreeSkips(taken[1..], candidates, files);
    } else {
      assert taken + candidates == candidates;
    }
  }

  /** The first free candidate is the one at the first index whose code is free. */
  lemma FirstFreeAt(candidates: seq<int>, files: map<int, string>, i: nat)
    requires i < |candidates| && candidates[i] !in files
    requires forall j :: 0 <= j < i ==> candidates[j] in files
    ensures exists c :: c in candidates && c !in files
    ensures FirstFree(candidates, files) == candidates[i]
  {
    assert candidates == candidates[..i] + candidates[i..];
    assert candidates[i..][0] == candidates[i];
    forall c | c in candidates[..i]
      ensures c in files
    {
      var j :| 0 <= j < i && candidates[..i][j] == c;
      assert candidates[j] == c;
    }
    FirstFreeSkips(candidates[..i], candidates[i..], files);
  }

  /** How a code's file server ends: the code has no entry, or its client got `wire`. */
  datatype ServeOutcome = NoEntry | Served(wire: seq<byte>)

  class FileSharer {
    /** Transfer code to the path of the stored file. */
    var availableFiles: map<int, string>
    /** Every code issued so far, oldest first. */
    ghost var issued: seq<int>

    /** Entries are never removed or replaced, so the issued codes are the keys, each issued once. */
    ghost predicate Valid()
      reads this
    {
      (forall i, j :: 0 <= i < j < |issued| ==> issued[i] != issued[j]) &&
      (forall c :: c in availableFiles <==> c in issued)
    }

    constructor()
      ensures Valid()
      ensures availableFiles == map[] && issued == []
    {
      availableFiles := map[];
      issued := [];
    }

    /**
     * Registers `filePath` under a fresh code. The generator's codes are
     * `candidates`, which must hold a code not yet registered: a code that
     * collides with a registered one is skipped.
     */
    method OfferFile(filePath: string, candidates: seq<int>) returns (port: int)
      requires Valid()
      requires exists c :: c in candidates && c !in availableFiles
      modifies this
      ensures Valid()
      ensures port !in old(availableFiles)
      ensures port == FirstFree(candidates, old(availableFiles))
      ensures availableFiles == old(availableFiles)[port := filePath]
      ensures issued == old(issued) + [port]
    {
      ghost var w :| 0 <= w < |candidates| && candidates[w] !in availableFiles;
      var i := 0;
      while true
        invariant 0 <= i <= w
        invariant forall j :: 0 <= j < i ==> candidates[j] in availableFiles
        invariant availableFiles == old(availableFiles) && issued == old(issued)
        decreases w - i
      {
        port := candidates[i];
        if port !in availableFiles {
          FirstFreeAt(candidates, availableFiles, i);
          availableFiles := availableFiles[port := filePath];
          issued := issued + [port];
          return;
        }
        i := i + 1;
      }
    }

    /**
     * Looks `port` up; with no entry nothing is served. Otherwise the one
     * client the server accepts is sent what the sender handler writes.
     */
    method StartFileServer(port: int, disk: map<string, seq<byte>>) returns (outcome: ServeOutcome)
      ensures port !in availableFiles <==> outcome == NoEntry
      ensures port in availableFiles && availableFiles[port] !in disk ==> outcome == Served([])
      ensures port in availableFiles && availableFiles[port] in disk ==>
                outcome == Served(Frame(availableFiles[port], disk[availableFiles[port]]))
    {
      if port !in availableFiles {
        return NoEntry;
      }
      var filePath := availableFiles[port];
      var wire := SendFile(filePath, disk);
      outcome := Served(wire);
    }
  }
}
