/**
 * Reading several registry files into one buffer (ReadMultiFiles). Each file
 * is given by its contents, or None when it cannot be opened. Every non-empty
 * file is appended followed by a NUL; when earlier data exists, the byte
 * before that data's NUL and the NUL itself are both overwritten with a line
 * break, so the files are joined by two line breaks and the last byte of each
 * earlier file is lost. The buffer is absent when no file contributed.
 */
module MultiFile {
  import opened Strings
  import opened Tables

  /** The buffer after one more file: unchanged for an empty or missing file;
      otherwise the contents and a NUL, with the previous last byte and NUL
      turned into line breaks when there was data before. */
  function Add(acc: seq<char>, file: Option<seq<char>>): (r: seq<char>)
    requires acc == [] || (|acc| >= 2 && acc[|acc| - 1] == Nul)
    ensures r == [] || (|r| >= 2 && r[|r| - 1] == Nul)
    ensures acc != [] ==> r != [] && |r| >= |acc|
  {
    match file
    case None => acc
    case Some(c) =>
      if c == [] then acc
      else if acc == [] then c + [Nul]
      else acc[..|acc| - 2] + "\n\n" + c + [Nul]
  }

  /** The buffer after the given files, in order. */
  function Splice(files: seq<Option<seq<char>>>): (r: seq<char>)
    ensures r == [] || (|r| >= 2 && r[|r| - 1] == Nul)
  {
    if files == [] then []
    else Add(Splice(files[..|files| - 1]), files[|files| - 1])
  }

  /** What ReadMultiFiles returns: null when no file contributed. */
  function Spliced(files: seq<Option<seq<char>>>): Option<seq<char>> {
    var r := Splice(files);
    if r == [] then None else Some(r)
  }

  /** The contents of the files that contribute: opened and non-empty. */
  function Present(files: seq<Option<seq<char>>>): (cs: seq<seq<char>>)
    ensures forall k :: 0 <= k < |cs| ==> cs[k] != []
  {
    if files == [] then []
    else
      var cs := Present(files[..|files| - 1]);
      match files[|files| - 1]
      case None => cs
      case Some(c) => if c == [] then cs else cs + [c]
  }

  /** The contributing files joined directly: each but the last loses its
      last byte and is followed by two line breaks; the last one is followed
      by the NUL. */
  function Joined(cs: seq<seq<char>>): (r: seq<char>)
    requires cs != [] && forall k :: 0 <= k < |cs| ==> cs[k] != []
    ensures |r| >= 2 && r[|r| - 1] == Nul
  {
    if |cs| == 1 then cs[0] + [Nul]
    else cs[0][..|cs[0]| - 1] + "\n\n" + Joined(cs[1..])
  }

  /** Joining one more file: the previous last byte and NUL become the two
      line breaks. */
  lemma {:induction false} JoinedSnoc(cs: seq<seq<char>>, c: seq<char>)
    requires cs != [] && forall k :: 0 <= k < |cs| ==> cs[k] != []
    requires c != []
    ensures var j := Joined(cs);
      Joined(cs + [c]) == j[..|j| - 2] + "\n\n" + c + [Nul]
  {
    var j := Joined(cs);
    if |cs| == 1 {
      assert (cs + [c])[1..] == [c];
      assert j[..|j| - 2] == cs[0][..|cs[0]| - 1];
    } else {
      assert (cs + [c])[1..] == cs[1..] + [c];
      JoinedSnoc(cs[1..], c);
      var t := Joined(cs[1..]);
      var head := cs[0][..|cs[0]| - 1] + "\n\n";
      assert j == head + t;
      assert j[..|j| - 2] == head + t[..|t| - 2];
    }
  }

  /** The buffer is the contributing files joined: missing and empty files
      contribute nothing, and it is absent exactly when none contributes. */
  lemma {:induction false} SplicedJoined(files: seq<Option<seq<char>>>)
    ensures Present(files) == [] <==> Splice(files) == []
    ensures Present(files) != [] ==> Splice(files) == Joined(Present(files))
  {
    if files != [] {
      var init := files[..|files| - 1];
      SplicedJoined(init);
      match files[|files| - 1]
      case None =>
      case Some(c) =>
        if c != [] && Present(init) != [] {
          JoinedSnoc(Present(init), c);
        }
    }
  }

  /** With no NUL inside the files, the buffer holds a single NUL, at its end. */
  lemma {:induction false} JoinedOneNul(cs: seq<seq<char>>)
    requires cs != [] && forall k :: 0 <= k < |cs| ==> cs[k] != [] && NoNul(cs[k])
    ensures var r := Joined(cs); NoNul(r[..|r| - 1])
  {
    var r := Joined(cs);
    if |cs| == 1 {
      assert r[..|r| - 1] == cs[0];
    } else {
      JoinedOneNul(cs[1..]);
      var t := Joined(cs[1..]);
      var head := cs[0][..|cs[0]| - 1] + "\n\n";
      assert r == head + t;
      assert r[..|r| - 1] == head + t[..|t| - 1];
      forall i | 0 <= i < |head|
        ensures head[i] != Nul
      {
        if i < |cs[0]| - 1 {
          assert head[i] == cs[0][i];
        }
      }
    }
  }

  /** ReadMultiFiles over the given file contents: each non-empty file is
      appended with its NUL into the reallocated buffer, then the previous
      last byte and NUL are overwritten with line breaks. */
  method ReadMultiFiles(files: seq<Option<seq<char>>>) returns (result: Option<seq<char>>)
    ensures result == Spliced(files)
  {
    var buffer: seq<char> := [];
    var runningSize: nat := 0;
    for i := 0 to |files|
      invariant buffer == Splice(files[..i])
      invariant runningSize == |buffer|
    {
      assert files[..i + 1][..i] == files[..i];
      match files[i]
      case None =>
      case Some(c) =>
        if |c| > 0 {
          var before := buffer;
          buffer := buffer + c + [Nul];
          if runningSize > 0 {
            buffer := buffer[runningSize - 2 := '\n'][runningSize - 1 := '\n'];
            assert buffer == before[..|before| - 2] + "\n\n" + c + [Nul];
          }
          runningSize := runningSize + |c| + 1;
        }
    }
    assert files[..|files|] == files;
    result := if buffer == [] then None else Some(buffer);
  }
}
