/**
 * The front-matter block at the top of SKILL.md: how it is cut out of the
 * file text, and what the YAML loader hands back for it.
 *
 * The YAML loader itself is not modelled; the validator receives it as a
 * function from the block's text to a `Parsed` value.
 */
module Frontmatter {
  import opened Strings

  /** What the validator needs to know of a YAML node: whether Python sees
      it as a `str`, and if not, the name of its Python type (`int`,
      `NoneType`, `list`, `bool`, ...). */
  datatype Node = Str(text: string) | NonStr(typeName: string)

  /** The result of loading the block: a dictionary, listed as its
      (key, value) pairs in insertion order; a document whose top value is
      not a dictionary (a scalar, a list, or nothing at all); or a loader
      error carrying its diagnostic text. */
  datatype Parsed =
    | Mapping(entries: seq<(Node, Node)>)
    | NotMapping
    | YamlError(diagnostic: string)

  /** How the text of SKILL.md divides around its front matter. */
  datatype Extraction = NoFrontmatter | BadFormat | Block(text: string)

  /** The line that opens and closes the front matter. */
  const Fence: string := "---"
  /** What ends the block: a newline followed by the fence. */
  const ClosingFence: string := "\n---"

  /**
   * The two delimiter checks, then the anchored non-greedy match
   * `^---\n(.*?)\n---` with dot-matches-newline: the block starts right
   * after the opening `---\n` and stops at the first `\n---` that follows.
   * The closing fence may be followed by anything (even more dashes).
   */
  function Extract(content: string): (r: Extraction)
    ensures r == NoFrontmatter <==> !StartsWith(content, Fence)
    ensures r.Block? <==>
      StartsWith(content, Fence + "\n") && exists p :: 4 <= p && OccursAt(content, ClosingFence, p)
    ensures r.Block? ==> StartsWith(content, Fence + "\n" + r.text + ClosingFence)
    ensures r.Block? ==> forall p :: 4 <= p < 4 + |r.text| ==> !OccursAt(content, ClosingFence, p)
  {
    if !StartsWith(content, Fence) then NoFrontmatter
    else if !StartsWith(content, Fence + "\n") then BadFormat
    else
      match FindFrom(content, ClosingFence, 4)
      case None => BadFormat
      case Some(k) =>
        var text := content[4..k];
        assert content[..4] == Fence + "\n";
        assert content[k..k + 4] == ClosingFence;
        assert content[..k + 4] == content[..4] + text + content[k..k + 4];
        Block(text)
  }

  /** The block never contains the closing fence itself: the match is the
      shortest one. */
  lemma BlockHasNoClosingFence(content: string)
    requires Extract(content).Block?
    ensures !Contains(Extract(content).text, ClosingFence)
  {
    var t := Extract(content).text;
    var whole := Fence + "\n" + t + ClosingFence;
    assert content[4..4 + |t|] == t by {
      assert content[..|whole|] == whole;
      assert whole[4..4 + |t|] == t;
      assert content[4..4 + |t|] == content[..|whole|][4..4 + |t|];
    }
    if Contains(t, ClosingFence) {
      var p :| OccursAt(t, ClosingFence, p);
      OccursWithin(content, 4, t, ClosingFence, p);
      assert false;
    }
  }

  /** An occurrence inside a slice is an occurrence in the whole string. */
  lemma OccursWithin(s: string, i: nat, t: string, pat: string, p: nat)
    requires i + |t| <= |s| && s[i..i + |t|] == t
    requires OccursAt(t, pat, p)
    ensures OccursAt(s, pat, i + p)
  {
    forall k | 0 <= k < |pat| ensures s[i + p + k] == pat[k] {
      assert s[i + p + k] == s[i..i + |t|][p + k] == t[p + k];
      assert t[p..p + |pat|][k] == t[p + k];
    }
    assert s[i + p..i + p + |pat|] == pat;
  }

  /* ---------------------------------------------------------------------
   * Dictionary access on a loaded mapping
   * ------------------------------------------------------------------- */

  /** `key in frontmatter`: some pair of the mapping has that key. */
  predicate HasKey(entries: seq<(Node, Node)>, key: Node)
    ensures HasKey(entries, key) <==> exists e :: e in entries && e.0 == key
  {
    exists i :: 0 <= i < |entries| && entries[i].0 == key
  }

  /** `frontmatter[key]`: the value of the key's last occurrence, as the
      loader overwrites a repeated key. */
  function Lookup(entries: seq<(Node, Node)>, key: Node): (v: Node)
    requires HasKey(entries, key)
    ensures exists i :: 0 <= i < |entries| && entries[i] == (key, v) &&
                        forall j :: i < j < |entries| ==> entries[j].0 != key
  {
    var n := |entries| - 1;
    if entries[n].0 == key then entries[n].1
    else
      assert HasKey(entries[..n], key) by {
        var i :| 0 <= i < |entries| && entries[i].0 == key;
        assert i < n && entries[..n][i] == entries[i];
      }
      var v := Lookup(entries[..n], key);
      var i :| 0 <= i < n && entries[..n][i] == (key, v) &&
        forall j :: i < j < n ==> entries[..n][j].0 != key;
      assert entries[i] == (key, v);
      v
  }
}
