/**
 The output file name the save dialog suggests: the input file's name with
 `_ZONED` inserted before its last extension, or appended when it has none.
 */
module SaveName {
  import opened Wrappers
  import opened Text

  /** The text after the last `/` of a path, `path.split('/')[-1]`: the whole path
      when it has no `/`. */
  function Basename(path: string): (name: string)
    ensures |name| <= |path| && name == path[|path| - |name|..]
    ensures forall k :: 0 <= k < |name| ==> name[k] != '/'
    ensures |name| < |path| ==> path[|path| - |name| - 1] == '/'
  {
    match LastIndexOf(path, '/')
    case None => path
    case Some(i) => path[i + 1..]
  }

  /** The marker inserted into the file name. */
  const Tag: string := "_ZONED"

  predicate NoDot(s: string) {
    forall k :: 0 <= k < |s| ==> s[k] != '.'
  }

  /** Where the tag goes in `name`: before its last `.`, or at the end when there is no `.`. */
  predicate TagGoesAt(name: string, i: nat) {
    || (i == |name| && NoDot(name))
    || (i < |name| && name[i] == '.' && NoDot(name[i + 1..]))
  }

  /** A base name with the tag inserted at its one admissible position, so that
      deleting the tag gives the base name back. */
  function TagName(name: string): (r: string)
    ensures exists i: nat :: TagGoesAt(name, i) && i <= |name| && r == name[..i] + Tag + name[i..]
  {
    match LastIndexOf(name, '.')
    case None =>
      NoDotAtEnd(name);
      name + Tag
    case Some(i) =>
      DotInsertion(name, i);
      name[..i] + Tag + "." + name[i + 1..]
  }

  /** The name the save dialog proposes for the output of `path`. */
  function SuggestName(path: string): string {
    TagName(Basename(path))
  }

  lemma NoDotAtEnd(name: string)
    requires forall k :: 0 <= k < |name| ==> name[k] != '.'
    ensures TagGoesAt(name, |name|) && name + Tag == name[..|name|] + Tag + name[|name|..]
  {
    assert name[..|name|] == name;
  }

  lemma DotInsertion(name: string, i: nat)
    requires i < |name| && name[i] == '.'
    requires forall k :: i < k < |name| ==> name[k] != '.'
    ensures TagGoesAt(name, i)
    ensures name[..i] + Tag + "." + name[i + 1..] == name[..i] + Tag + name[i..]
  {
    var ext := name[i + 1..];
    forall k | 0 <= k < |ext|
      ensures ext[k] != '.'
    {
      assert ext[k] == name[i + 1 + k];
    }
    assert name[i..] == "." + ext;
    AppendAssoc(name[..i] + Tag, ".", ext);
  }

  /** The tag has exactly one admissible position in a name. */
  lemma TagPositionUnique(name: string, i: nat, j: nat)
    requires TagGoesAt(name, i) && TagGoesAt(name, j)
    ensures i == j
  {
  }

  /** A path ending in `/name`, where `name` has no `/`, has base name `name`. */
  lemma BasenameAfterSlash(dir: string, name: string)
    requires forall k :: 0 <= k < |name| ==> name[k] != '/'
    ensures Basename(dir + "/" + name) == name
  {
    var path := dir + "/" + name;
    forall k | |dir| < k < |path|
      ensures path[k] != '/'
    {
      assert path[k] == name[k - |dir| - 1];
    }
    LastIndexOfIs(path, '/', |dir|);
    assert path[|dir| + 1..] == name;
  }

  /** A name `base.ext` whose extension has no dot gets the tag before the dot. */
  lemma TagBeforeExtension(base: string, ext: string)
    requires NoDot(ext)
    ensures TagName(base + "." + ext) == base + Tag + "." + ext
  {
    var name := base + "." + ext;
    forall k | |base| < k < |name|
      ensures name[k] != '.'
    {
      assert name[k] == ext[k - |base| - 1];
    }
    LastIndexOfIs(name, '.', |base|);
    assert name[..|base|] == base && name[|base| + 1..] == ext;
  }

  /** A name without a dot gets the tag at its end. */
  lemma TagAtEnd(name: string)
    requires NoDot(name)
    ensures TagName(name) == name + Tag
  {
    LastIndexOfNone(name, '.');
  }

  /** The suggestion for `dir/base.ext`, with no `/` in `base` or `ext` and no dot in
      `ext`: the tag goes between `base` and the last extension, and the directory
      is dropped. */
  lemma SuggestNameOf(dir: string, base: string, ext: string)
    requires forall k :: 0 <= k < |base| ==> base[k] != '/'
    requires forall k :: 0 <= k < |ext| ==> ext[k] != '/' && ext[k] != '.'
    ensures SuggestName(dir + "/" + (base + "." + ext)) == base + Tag + "." + ext
  {
    var name := base + "." + ext;
    forall k | 0 <= k < |name|
      ensures name[k] != '/'
    {
      if k > |base| {
        assert name[k] == ext[k - |base| - 1];
      }
    }
    BasenameAfterSlash(dir, name);
    TagBeforeExtension(base, ext);
  }

  /** The suggestion for `dir/name`, where `name` has neither `/` nor `.`:
      the tag is appended to the name. */
  lemma SuggestNameWithoutExtension(dir: string, name: string)
    requires forall k :: 0 <= k < |name| ==> name[k] != '/' && name[k] != '.'
    ensures SuggestName(dir + "/" + name) == name + Tag
  {
    BasenameAfterSlash(dir, name);
    TagAtEnd(name);
  }
}
