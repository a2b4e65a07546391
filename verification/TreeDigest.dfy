/**
 The byte stream that a tree digest hashes: for each file its path, its length in decimal and its content, each
 closed by a NUL.  The stream is uniquely decodable, so equal streams come only from equal trees.
 */
module TreeDigest {
  import opened Base

  type Byte = b: int | 0 <= b < 256 witness 0

  const NUL: Byte := 0
  const ZERO: Byte := 48

  datatype File = File(path: seq<Byte>, content: seq<Byte>)

  // ---- The stream -------------------------------------------------------------------------------

  function Decimal(n: nat): seq<Byte> {
    if n < 10 then [ZERO + n] else Decimal(n / 10) + [ZERO + n % 10]
  }

  function Frame(f: File): seq<Byte> {
    f.path + [NUL] + Decimal(|f.content|) + [NUL] + f.content + [NUL]
  }

  function Stream(files: seq<File>): seq<Byte> {
    if files == [] then [] else Frame(files[0]) + Stream(files[1..])
  }

  predicate NulFree(s: seq<Byte>) { forall i :: 0 <= i < |s| ==> s[i] != NUL }

  predicate NulFreePaths(files: seq<File>) { forall i :: 0 <= i < |files| ==> NulFree(files[i].path) }

  lemma {:induction false} StreamAppend(files: seq<File>, f: File)
    ensures Stream(files + [f]) == Stream(files) + Frame(f)
  {
    if files == [] {
      assert Stream([f]) == Frame(f) + Stream([f][1..]);
    } else {
      assert (files + [f])[1..] == files[1..] + [f];
      StreamAppend(files[1..], f);
    }
  }

  /** What the running digest is fed, update by update. */
  method FeedTree(files: seq<File>) returns (fed: seq<Byte>)
    ensures fed == Stream(files)
  {
    fed := [];
    for i := 0 to |files|
      invariant fed == Stream(files[..i])
    {
      var file := files[i];
      ghost var before := fed;
      fed := fed + file.path;
      fed := fed + [NUL];
      fed := fed + Decimal(|file.content|);
      fed := fed + [NUL];
      fed := fed + file.content;
      fed := fed + [NUL];
      assert fed == before + Frame(file);
      StreamAppend(files[..i], file);
      assert files[..i + 1] == files[..i] + [file];
    }
    assert files[..|files|] == files;
  }

  // ---- Reading it back --------------------------------------------------------------------------

  function Number(digits: seq<Byte>): int {
    if digits == [] then 0 else 10 * Number(digits[..|digits| - 1]) + (digits[|digits| - 1] - ZERO)
  }

  /** The position of the first NUL. */
  function FirstNul(s: seq<Byte>): (k: nat)
    ensures k <= |s| && NulFree(s[..k]) && (k < |s| ==> s[k] == NUL)
  {
    if s == [] || s[0] == NUL then 0
    else
      var k := 1 + FirstNul(s[1..]);
      assert s[..k] == [s[0]] + s[1..][..k - 1];
      k
  }

  /** A field up to its NUL, and what follows. */
  function Field(s: seq<Byte>): (r: Option<(seq<Byte>, seq<Byte>)>)
    ensures r.Some? ==> s == r.value.0 + [NUL] + r.value.1 && NulFree(r.value.0)
  {
    var k := FirstNul(s);
    if k == |s| then None else Some((s[..k], s[k + 1..]))
  }

  /** `n` bytes closed by a NUL, and what follows. */
  function Sized(s: seq<Byte>, n: int): (r: Option<(seq<Byte>, seq<Byte>)>)
    ensures r.Some? ==> s == r.value.0 + [NUL] + r.value.1 && |r.value.0| == n
  {
    if 0 <= n < |s| && s[n] == NUL then Some((s[..n], s[n + 1..])) else None
  }

  lemma {:induction false} FrameJoins(f: File, rest: seq<Byte>)
    ensures f.path + [NUL] + (Decimal(|f.content|) + [NUL] + (f.content + [NUL] + rest)) == Frame(f) + rest
  {
    var size := Decimal(|f.content|);
    assert Frame(f) + rest == f.path + [NUL] + size + [NUL] + f.content + ([NUL] + rest);
  }

  function ParseFile(s: seq<Byte>): (r: Option<(File, seq<Byte>)>)
    ensures r.Some? ==> s == Frame(r.value.0) + r.value.1 && NulFree(r.value.0.path)
  {
    var path := Field(s);
    if path.None? then None
    else
      var size := Field(path.value.1);
      if size.None? then None
      else
        var n := Number(size.value.0);
        if n < 0 || size.value.0 != Decimal(n) then None
        else
          var content := Sized(size.value.1, n);
          if content.None? then None
          else
            FrameJoins(File(path.value.0, content.value.0), content.value.1);
            Some((File(path.value.0, content.value.0), content.value.1))
  }

  function Parse(s: seq<Byte>): (r: Option<seq<File>>)
    ensures r.Some? ==> s == Stream(r.value) && NulFreePaths(r.value)
    decreases |s|
  {
    if s == [] then Some([])
    else
      var first := ParseFile(s);
      if first.None? then None
      else
        var rest := Parse(first.value.1);
        if rest.None? then None else Some([first.value.0] + rest.value)
  }

  // ---- Unique decodability ----------------------------------------------------------------------

  lemma {:induction false} NumberOfDecimal(n: nat)
    ensures Number(Decimal(n)) == n && NulFree(Decimal(n))
  {
    if n >= 10 {
      NumberOfDecimal(n / 10);
      assert Decimal(n)[..|Decimal(n)| - 1] == Decimal(n / 10);
    }
  }

  lemma {:induction false} FieldOf(field: seq<Byte>, rest: seq<Byte>)
    requires NulFree(field)
    ensures Field(field + [NUL] + rest) == Some((field, rest))
  {
    var s := field + [NUL] + rest;
    var k := FirstNul(s);
    assert s[|field|] == NUL;
    assert k == |field|;
    assert s[..|field|] == field && s[|field| + 1..] == rest;
  }

  lemma {:induction false} SizedOf(content: seq<Byte>, rest: seq<Byte>)
    ensures Sized(content + [NUL] + rest, |content|) == Some((content, rest))
  {
    var s := content + [NUL] + rest;
    assert s[..|content|] == content && s[|content| + 1..] == rest;
  }

  lemma {:induction false} ParseFileOf(f: File, rest: seq<Byte>)
    requires NulFree(f.path)
    ensures ParseFile(Frame(f) + rest) == Some((f, rest))
  {
    var afterSize := f.content + [NUL] + rest;
    var afterPath := Decimal(|f.content|) + [NUL] + afterSize;
    FrameJoins(f, rest);
    FieldOf(f.path, afterPath);
    NumberOfDecimal(|f.content|);
    FieldOf(Decimal(|f.content|), afterSize);
    SizedOf(f.content, rest);
  }

  lemma {:induction false} ParseStep(s: seq<Byte>, f: File, rest: seq<Byte>, files: seq<File>)
    requires s == Frame(f) + rest && ParseFile(s) == Some((f, rest)) && Parse(rest) == Some(files)
    ensures Parse(s) == Some([f] + files)
  {
    assert |Frame(f)| > 0;
  }

  /** The parser recovers the files, for any contents, as long as no path contains a NUL. */
  lemma {:induction false} ParseStream(files: seq<File>)
    requires NulFreePaths(files)
    ensures Parse(Stream(files)) == Some(files)
  {
    if files != [] {
      ParseFileOf(files[0], Stream(files[1..]));
      ParseStream(files[1..]);
      ParseStep(Stream(files), files[0], Stream(files[1..]), files[1..]);
      assert files == [files[0]] + files[1..];
    }
  }

  /** The streams of lists without NULs in paths are exactly what the parser accepts, each from one list. */
  lemma {:induction false} StreamsAreDecodable(s: seq<Byte>, files: seq<File>)
    ensures Parse(s) == Some(files) <==> Stream(files) == s && NulFreePaths(files)
  {
    if Stream(files) == s && NulFreePaths(files) { ParseStream(files); }
  }

  /** A NUL inside a path can make one file look like two. */
  lemma {:induction false} NulsCollide()
    ensures Stream([File([97, 0, 48, 0, 0, 98], [])]) == Stream([File([97], []), File([98], [])])
  {
    var merged, a, b := File([97, 0, 48, 0, 0, 98], []), File([97], []), File([98], []);
    assert [merged][1..] == [] && [a, b][1..] == [b] && [b][1..] == [];
    assert Stream([merged]) == Frame(merged) + [] && Stream([b]) == Frame(b) + [];
    assert Stream([a, b]) == Frame(a) + Stream([b]);
    assert Frame(a) == [97, 0, 48, 0, 0] && Frame(b) == [98, 0, 48, 0, 0];
    assert Frame(merged) == [97, 0, 48, 0, 0, 98, 0, 48, 0, 0];
  }

  // ---- Trees ------------------------------------------------------------------------------------

  /** The order of the sorted listing: by path, byte by byte. */
  predicate PathBefore(a: seq<Byte>, b: seq<Byte>) {
    b != [] && (a == [] || a[0] < b[0] || (a[0] == b[0] && PathBefore(a[1..], b[1..])))
  }

  ghost predicate Listed(files: seq<File>) {
    forall i, j :: 0 <= i < j < |files| ==> PathBefore(files[i].path, files[j].path)
  }

  lemma {:induction false} PathOrderIsStrict(a: seq<Byte>, b: seq<Byte>)
    ensures !(PathBefore(a, b) && PathBefore(b, a))
    decreases |a|
  {
    if a != [] && b != [] { PathOrderIsStrict(a[1..], b[1..]); }
  }

  lemma {:induction false} NothingListed(g: seq<File>)
    requires g != []
    ensures exists x :: x in g
  {
    assert g[0] in g;
  }

  /** A sorted listing is determined by what it lists. */
  lemma {:induction false} ListingsAreUnique(f: seq<File>, g: seq<File>)
    requires Listed(f) && Listed(g) && forall x :: x in f <==> x in g
    ensures f == g
  {
    if f == [] {
      if g != [] { NothingListed(g); }
    } else {
      assert f[0] in g;
      assert g[0] in f;
      var j :| 0 <= j < |g| && g[j] == f[0];
      var i :| 0 <= i < |f| && f[i] == g[0];
      PathOrderIsStrict(f[0].path, g[0].path);
      assert i == 0 || j == 0;
      forall x ensures x in f[1..] <==> x in g[1..] { RestOfListing(f, g, x); RestOfListing(g, f, x); }
      ListingsAreUnique(f[1..], g[1..]);
      assert f == [f[0]] + f[1..] && g == [g[0]] + g[1..];
    }
  }

  lemma {:induction false} RestOfListing(f: seq<File>, g: seq<File>, x: File)
    requires Listed(f) && f != [] && g != [] && f[0] == g[0] && forall y :: y in f <==> y in g
    ensures x in f[1..] ==> x in g[1..]
  {
    if x in f[1..] {
      assert x in g;
      PathOrderIsStrict(x.path, x.path);
      assert x != f[0];
    }
  }

  /** Two trees feed the digest the same bytes exactly when they hold the same files with the same contents. */
  lemma {:induction false} SameStreamSameTree(f: seq<File>, g: seq<File>)
    requires Listed(f) && Listed(g) && NulFreePaths(f) && NulFreePaths(g)
    ensures Stream(f) == Stream(g) <==> forall x :: x in f <==> x in g
  {
    if Stream(f) == Stream(g) {
      ParseStream(f);
      ParseStream(g);
    }
    if forall x :: x in f <==> x in g { ListingsAreUnique(f, g); }
  }
}
