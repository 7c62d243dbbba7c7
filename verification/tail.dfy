/** `tail_stream(stream, n=10)` and `tail(path, n=10)`: the last `n` lines
    of a stream, each with its own line terminator, in their original order.
    A stream is its sequence of lines; the file system is a map from path to
    stream, and a path that is not in it does not exist. */
module Tail {

  const DefaultLines: nat := 10

  function Min(a: nat, b: nat): (m: nat) {
    if a <= b then a else b
  }

  /** `tail_stream`: walks back from the end of the stream, one line at a
      time, until it holds `n` lines or reaches the start. */
  method TailStream(lines: seq<string>, n: nat := DefaultLines) returns (tail: seq<string>)
    ensures |tail| == Min(n, |lines|)
    ensures lines == lines[..|lines| - |tail|] + tail
  {
    var start := |lines|;
    tail := [];
    while start > 0 && |tail| < n
      invariant 0 <= start <= |lines|
      invariant tail == lines[start..]
      invariant |tail| <= n
    {
      start := start - 1;
      tail := [lines[start]] + tail;
    }
  }

  /** `tail`: the tail of the file at `path`, or no lines at all when there is
      no such file. */
  method Tail(files: map<string, seq<string>>, path: string, n: nat := DefaultLines) returns (tail: seq<string>)
    ensures path !in files ==> tail == []
    ensures path in files ==> |tail| == Min(n, |files[path]|)
    ensures path in files ==> files[path] == files[path][..|files[path]| - |tail|] + tail
  {
    if path !in files {
      return [];
    }
    tail := TailStream(files[path], n);
  }

  /** The cases of tests/utils_test.py: five lines "0\n" .. "4\n" come back whole under
      the default depth; the last five of 10000 lines are "9995\n" ..
      "9999\n", from the stream or from the file; a missing file gives no
      lines. */
  method TailExamples() {
    var five := ["0\n", "1\n", "2\n", "3\n", "4\n"];
    var t := TailStream(five);
    assert t == five;

    var many := seq(10000, i => "line\n");
    var lastFive := ["9995\n", "9996\n", "9997\n", "9998\n", "9999\n"];
    many := many[..9995] + lastFive;
    t := TailStream(many, 5);
    assert t == many[9995..] == lastFive;

    t := Tail(map["/tmp/lines" := many], "/tmp/lines", 5);
    assert t == lastFive;

    t := Tail(map[], "/no/such/thing");
    assert t == [];
  }
}
