/** Output file names derived from kernel and competition references
    (src/main.py:115, src/main.py:163, src/main.py:169, src/main.py:172). */
module Naming {

  /** The replacement written for every `/` of a kernel reference. */
  const SeparatorToken: string := "$$$"

  /** `ref.replace('/', '$$$')`: the reference made into a single path component. */
  function Escape(ref: string): (name: string)
    ensures '/' !in name
    ensures forall c :: c in name && c != '$' ==> c in ref
    ensures |name| >= |ref|
  {
    if ref == [] then []
    else (if ref[0] == '/' then SeparatorToken else [ref[0]]) + Escape(ref[1..])
  }

  /** Reads an escaped name back, turning each `$$$` into `/`. */
  function Unescape(name: string): (ref: string)
  {
    if name == [] then []
    else if |name| >= 3 && name[..3] == SeparatorToken then "/" + Unescape(name[3..])
    else [name[0]] + Unescape(name[1..])
  }

  /** On references without `$` (every Kaggle kernel reference is `owner/slug` with
      neither part holding a `$`) the escaping loses nothing. */
  lemma {:induction false} UnescapeEscape(ref: string)
    requires '$' !in ref
    ensures Unescape(Escape(ref)) == ref
  {
    if ref != [] {
      var rest := Escape(ref[1..]);
      UnescapeEscape(ref[1..]);
      if ref[0] == '/' {
        assert Escape(ref) == SeparatorToken + rest;
        assert (SeparatorToken + rest)[..3] == SeparatorToken;
        assert (SeparatorToken + rest)[3..] == rest;
      } else {
        assert Escape(ref) == [ref[0]] + rest;
        assert ([ref[0]] + rest)[0] == ref[0] != '$';
        assert ([ref[0]] + rest)[1..] == rest;
      }
    }
  }

  /** Two `$`-free references never share an output name. */
  lemma EscapeInjective(a: string, b: string)
    requires '$' !in a && '$' !in b
    requires Escape(a) == Escape(b)
    ensures a == b
  {
    UnescapeEscape(a);
    UnescapeEscape(b);
  }

  /** With a `$` in a reference the token is no longer collision-safe. */
  lemma EscapeCollision()
    ensures Escape("a/b") == Escape("a$$$b") == "a$$$b"
  {
    assert Escape("b") == "b";
    assert Escape("$b") == "$b";
    assert Escape("$$b") == "$$b";
    assert Escape("$$$b") == "$$$b";
    assert Escape("/b") == "$$$b";
  }

  /** The metadata file of a kernel (src/main.py:163). */
  function MetaPath(ref: string): (path: string)
    ensures '/' !in path
    ensures |path| >= 10 && path[|path| - 10..] == ".meta.json"
    ensures '$' !in ref ==> Unescape(path[..|path| - 10]) == ref
  {
    var path := Escape(ref) + ".meta.json";
    assert path[..|path| - 10] == Escape(ref);
    if '$' !in ref then UnescapeEscape(ref); path else path
  }

  /** The Python source file of a kernel (src/main.py:169, src/main.py:172). */
  function SourcePath(ref: string): (path: string)
    ensures '/' !in path
    ensures |path| >= 3 && path[|path| - 3..] == ".py"
    ensures '$' !in ref ==> Unescape(path[..|path| - 3]) == ref
  {
    var path := Escape(ref) + ".py";
    assert path[..|path| - 3] == Escape(ref);
    if '$' !in ref then UnescapeEscape(ref); path else path
  }

  /** The listing file of a competition; the competition reference is used unescaped
      (src/main.py:115). */
  function ListingPath(competition: string): (path: string)
    ensures |path| == |competition| + 5 && path[..|competition|] == competition
    ensures path[|competition|..] == ".json"
  {
    competition + ".json"
  }

  /** No metadata file of one kernel is the source file of another, and for
      `$`-free references distinct kernels get distinct files. */
  lemma ArtifactPathsDistinct(a: string, b: string)
    ensures MetaPath(a) != SourcePath(b)
    ensures '$' !in a && '$' !in b && a != b ==> MetaPath(a) != MetaPath(b) && SourcePath(a) != SourcePath(b)
  {
    var ma, mb, sa, sb := MetaPath(a), MetaPath(b), SourcePath(a), SourcePath(b);
    assert ma[|ma| - 1] == 'n' && sb[|sb| - 1] == 'y';
    assert Escape(a) == ma[..|ma| - 10] == sa[..|sa| - 3];
    assert Escape(b) == mb[..|mb| - 10] == sb[..|sb| - 3];
    if '$' !in a && '$' !in b && Escape(a) == Escape(b) {
      EscapeInjective(a, b);
    }
  }
}
