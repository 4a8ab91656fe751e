/** The universe of kernel references: every listing file of the kernel directory that
    decodes contributes its list, in file order (src/main.py:197-208). */
module Universe {
  import opened Wrappers

  /** One file found by `os.walk` in the kernel directory: its name and what `json.load`
      makes of it. */
  datatype ListingFile = ListingFile(name: string, contents: Decoded<seq<string>>)

  /** The references one file contributes: its list, or nothing when it does not decode. */
  function Contributed(file: ListingFile): (refs: seq<string>)
  {
    if file.contents.Parsed? then file.contents.value else []
  }

  /** The concatenation, in file order, of what every file contributes. */
  function AllRefs(files: seq<ListingFile>): (refs: seq<string>)
  {
    if files == [] then [] else AllRefs(files[..|files| - 1]) + Contributed(files[|files| - 1])
  }

  /** The names of the files that do not decode, in file order. */
  function Unreadable(files: seq<ListingFile>): (names: seq<string>)
  {
    if files == [] then []
    else Unreadable(files[..|files| - 1]) + (if files[|files| - 1].contents.DecodeError? then [files[|files| - 1].name] else [])
  }

  /** Concatenation distributes over splitting the directory listing. */
  lemma {:induction false} AllRefsAppend(a: seq<ListingFile>, b: seq<ListingFile>)
    ensures AllRefs(a + b) == AllRefs(a) + AllRefs(b)
  {
    if b != [] {
      var init := b[..|b| - 1];
      assert (a + b)[..|a + b| - 1] == a + init;
      assert (a + b)[|a + b| - 1] == b[|b| - 1];
      AllRefsAppend(a, init);
    } else {
      assert a + b == a;
    }
  }

  /** A directory of one file yields what that file contributes. */
  lemma AllRefsSingle(file: ListingFile)
    ensures AllRefs([file]) == Contributed(file)
  {
    assert [file][..0] == [];
  }

  /** A file that does not decode contributes nothing, and the scan goes on past it:
      the result is what the remaining files give. */
  lemma MalformedFileIgnored(files: seq<ListingFile>, i: nat)
    requires i < |files| && files[i].contents.DecodeError?
    ensures AllRefs(files) == AllRefs(files[..i] + files[i + 1..])
  {
    var before, after := files[..i], files[i + 1..];
    var rest := [files[i]] + after;
    assert files == before + rest;
    AllRefsAppend(before, rest);
    AllRefsAppend([files[i]], after);
    AllRefsSingle(files[i]);
    assert AllRefs(rest) == AllRefs(after);
    AllRefsAppend(before, after);
  }

  /** A reference is in the universe exactly when some decodable file lists it. */
  lemma {:induction false} AllRefsMembers(files: seq<ListingFile>, r: string)
    ensures r in AllRefs(files) <==> exists i :: 0 <= i < |files| && r in Contributed(files[i])
  {
    if files != [] {
      var init := files[..|files| - 1];
      AllRefsMembers(init, r);
      if r in AllRefs(files) && r !in Contributed(files[|files| - 1]) {
        var i :| 0 <= i < |init| && r in Contributed(init[i]);
        assert files[i] == init[i];
      }
      if exists i :: 0 <= i < |files| && r in Contributed(files[i]) {
        var i :| 0 <= i < |files| && r in Contributed(files[i]);
        if i < |init| { assert init[i] == files[i]; }
      }
    }
  }

  /** `_list_all_kernel_refs`: the loop that does `result += json.load(f)` per file and
      reports each file it cannot read. */
  method ListAllKernelRefs(files: seq<ListingFile>) returns (refs: seq<string>, unreadable: seq<string>)
    ensures refs == AllRefs(files)
    ensures unreadable == Unreadable(files)
  {
    refs, unreadable := [], [];
    for k := 0 to |files|
      invariant refs == AllRefs(files[..k])
      invariant unreadable == Unreadable(files[..k])
    {
      assert files[..k + 1][..k] == files[..k];
      match files[k].contents
      case Parsed(list) =>
        refs := refs + list;
      case DecodeError =>
        unreadable := unreadable + [files[k].name];
    }
    assert files[..|files|] == files;
  }
}
