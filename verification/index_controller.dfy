/**
 * The composite logic of the console's `IndexController` written against
 * the store model: the version list, the data tree joined with its comment
 * shadow, version creation and cloning, the property and group handlers,
 * and the import of a `.properties` file into a group.
 *
 * A namespace root `r` holds versions `r/v`; each version has a shadow
 * version `r/v$` whose node at `r/v$/g/k` is the comment of `r/v/g/k`.
 * The HTTP layer is gone: the signed-in user's root is a parameter, and
 * a handler's `CommonResponse` success flag is the `ok` of its `Reply`.
 */
module IndexController {

  import opened Optional
  import opened JavaString
  import opened NodeService
  import opened NameSort
  import opened PropertyLines
  import opened TextLines

  /** `COMMENT_SUFFIX`: appended to a version name to name its comment shadow. */
  const CommentSuffix: string := "$"

  /* ----- paths ----- */

  /** `ZKPaths.makePath(parent, child)` for a child without `/`: an empty child adds nothing. */
  function MakePath(parent: Path, child: string): Path {
    if child == "" then parent else parent + [child]
  }

  function PathFrom(parent: Path, segments: seq<string>): Path
    decreases |segments|
  {
    if |segments| == 0 then parent else PathFrom(MakePath(parent, segments[0]), segments[1..])
  }

  /** `makePaths(root, first, others...)`: `makePath` applied segment by segment from `/`. */
  function MakePaths(segments: seq<string>): Path {
    PathFrom([], segments)
  }

  /** The non-empty segments, in order: what a path built from `segments` consists of. */
  function NonEmptyNames(segments: seq<string>): (p: Path)
    ensures NamesNonEmpty(p)
    ensures |p| <= |segments|
  {
    if |segments| == 0 then []
    else (if segments[0] == "" then [] else [segments[0]]) + NonEmptyNames(segments[1..])
  }

  lemma {:induction false} PathFromAppends(parent: Path, segments: seq<string>)
    ensures PathFrom(parent, segments) == parent + NonEmptyNames(segments)
    decreases |segments|
  {
    if |segments| > 0 {
      PathFromAppends(MakePath(parent, segments[0]), segments[1..]);
    }
  }

  /** `makePaths` keeps every non-empty segment, in order, and drops the empty ones. */
  lemma MakePathsKeepsNonEmptyNames(segments: seq<string>)
    ensures MakePaths(segments) == NonEmptyNames(segments)
    ensures NamesNonEmpty(MakePaths(segments))
  {
    PathFromAppends([], segments);
  }

  lemma NonEmptyNamesCons(x: string, rest: seq<string>)
    ensures NonEmptyNames([x] + rest) == (if x == "" then [] else [x]) + NonEmptyNames(rest)
  {
    assert ([x] + rest)[1..] == rest;
  }

  /** The path of the namespace root. */
  function RootPath(root: string): Path {
    MakePaths([root])
  }

  /** A path built from the root and further segments extends the root path by the non-empty ones. */
  lemma RootedPath(root: string, rest: seq<string>)
    ensures MakePaths([root] + rest) == RootPath(root) + NonEmptyNames(rest)
    ensures NamesNonEmpty(RootPath(root))
  {
    MakePathsKeepsNonEmptyNames([root] + rest);
    MakePathsKeepsNonEmptyNames([root]);
    NonEmptyNamesCons(root, rest);
    NonEmptyNamesCons(root, []);
  }

  /** A path below a named version starts with the root path and the version name. */
  lemma VersionPathShape(root: string, version: string, rest: seq<string>)
    requires version != ""
    ensures MakePaths([root, version] + rest) == RootPath(root) + [version] + NonEmptyNames(rest)
    ensures NamesNonEmpty(RootPath(root))
  {
    assert [root, version] + rest == [root] + ([version] + rest);
    RootedPath(root, [version] + rest);
    NonEmptyNamesCons(version, rest);
  }

  function ShadowName(version: string): string {
    version + CommentSuffix
  }

  /** The root of the comment shadow of `version`. */
  function ShadowVersionPath(root: string, version: string): Path {
    MakePaths([root, ShadowName(version)])
  }

  /** The data node of a property. */
  function PropPath(root: string, version: string, group: string, key: string): Path {
    MakePaths([root, version, group, key])
  }

  /** The comment node of a property, at the mirrored place in the shadow version. */
  function CommentPath(root: string, version: string, group: string, key: string): Path {
    MakePaths([root, ShadowName(version), group, key])
  }

  /**
   * A named version's data paths all lie outside its comment shadow: the
   * two trees differ in the name right below the root.
   */
  lemma {:induction false} DataOutsideShadow(root: string, version: string, rest: seq<string>, q: Path)
    requires version != ""
    requires ShadowVersionPath(root, version) <= q
    ensures !(MakePaths([root, version] + rest) <= q)
  {
    VersionPathShape(root, version, rest);
    assert [root, ShadowName(version)] == [root, ShadowName(version)] + [];
    VersionPathShape(root, ShadowName(version), []);
    var n := |RootPath(root)|;
    var shadow := ShadowVersionPath(root, version);
    assert |shadow| == n + 1 && shadow[n] == ShadowName(version);
    assert q[n] == ShadowName(version);
    assert |ShadowName(version)| == |version| + 1;
  }

  /**
   * A property's comment node is never its data node nor an ancestor of
   * it, so writing one never creates or overwrites the other.
   */
  lemma {:induction false} CommentPathApart(root: string, version: string, group: string, key: string)
    ensures !(CommentPath(root, version, group, key) <= PropPath(root, version, group, key))
    ensures CommentPath(root, version, group, key) != PropPath(root, version, group, key)
  {
    var c := CommentPath(root, version, group, key);
    var p := PropPath(root, version, group, key);
    var n := |RootPath(root)|;
    assert [root, ShadowName(version), group, key] == [root, ShadowName(version)] + [group, key];
    assert [root, version, group, key] == [root, version] + [group, key];
    VersionPathShape(root, ShadowName(version), [group, key]);
    assert |c| == n + 1 + |NonEmptyNames([group, key])|;
    if version == "" {
      assert [root, version, group, key] == [root] + ([version] + [group, key]);
      RootedPath(root, [version] + [group, key]);
      NonEmptyNamesCons(version, [group, key]);
      assert |p| == n + |NonEmptyNames([group, key])|;
    } else {
      VersionPathShape(root, version, [group, key]);
      assert p[n] == version && c[n] == ShadowName(version);
      assert |ShadowName(version)| == |version| + 1;
    }
  }

  /**
   * Below a named version a property's data node is not an ancestor of
   * its comment node either: the two paths part right below the root.
   */
  lemma {:induction false} PropPathApart(root: string, version: string, group: string, key: string)
    ensures version != "" ==> !(PropPath(root, version, group, key) <= CommentPath(root, version, group, key))
  {
    if version == "" { return; }
    var c := CommentPath(root, version, group, key);
    var p := PropPath(root, version, group, key);
    var n := |RootPath(root)|;
    assert [root, ShadowName(version), group, key] == [root, ShadowName(version)] + [group, key];
    assert [root, version, group, key] == [root, version] + [group, key];
    VersionPathShape(root, ShadowName(version), [group, key]);
    VersionPathShape(root, version, [group, key]);
    assert p[n] == version && c[n] == ShadowName(version);
    assert |ShadowName(version)| == |version| + 1;
  }

  /** Node `q` is in `r` exactly when it was in `s`, with the same data. */
  ghost predicate NodeKept(s: Store, r: Store, q: Path) {
    && (q in r.nodes <==> q in s.nodes)
    && (q in s.nodes ==> r.nodes[q] == s.nodes[q])
  }

  /** `Strings.isNullOrEmpty` negated. */
  predicate HasText(s: Option<string>) {
    s.Some? && s.value != ""
  }

  /** `StringUtils.trim`, which passes `null` through. */
  function TrimOption(s: Option<string>): Option<string> {
    s.Map(Trim)
  }

  /* ----- version list ----- */

  /** What the version page shows. */
  datatype VersionView = VersionView(versions: seq<string>, theVersion: Option<string>, groups: Option<seq<string>>)

  /**
   * The version list of `rootNode`: the root's children without the shadow
   * versions, in descending order. `None` is the `NullPointerException`
   * when the root is absent or the backend fails.
   */
  method ListVersions(s: Store, root: string) returns (versions: Option<seq<string>>)
    ensures versions.Some? <==> s.online && RootPath(root) in s.nodes
    ensures versions.Some? ==> Descending(versions.value)
    ensures versions.Some? ==> forall v :: v in versions.value <==>
      RootPath(root) + [v] in s.nodes && !EndsWith(v, CommentSuffix)
  {
    var children := ListChildren(s, RootPath(root));
    if children.None? {
      return None;
    }
    var visible := set v | v in children.value && !EndsWith(v, CommentSuffix);
    var sorted := SortDescending(visible);
    versions := Some(sorted);
  }

  /**
   * `rootNode`: the version list, the version to show (the requested one,
   * else the first listed, else none), and that version's groups in
   * ascending order when it is one of the listed versions.
   */
  method RootNode(s: Store, root: string, version: Option<string>) returns (view: Option<VersionView>)
    ensures view.Some? <==> s.online && RootPath(root) in s.nodes
    ensures view.Some? ==> Descending(view.value.versions)
    ensures view.Some? ==> forall v :: v in view.value.versions <==>
      RootPath(root) + [v] in s.nodes && !EndsWith(v, CommentSuffix)
    ensures view.Some? && version.Some? ==> view.value.theVersion == version
    ensures view.Some? && version.None? ==>
      if |view.value.versions| == 0 then view.value.theVersion.None?
      else view.value.theVersion == Some(view.value.versions[0])
    ensures view.Some? ==> (view.value.groups.Some? <==>
      view.value.theVersion.Some? && view.value.theVersion.value in view.value.versions)
    ensures view.Some? && view.value.groups.Some? ==>
      Ascending(view.value.groups.value) &&
      forall g :: g in view.value.groups.value <==>
        MakePaths([root, view.value.theVersion.value]) + [g] in s.nodes
  {
    var versions := ListVersions(s, root);
    if versions.None? {
      return None;
    }
    var theVersion := if version.Some? then version
                      else if |versions.value| == 0 then None
                      else Some(versions.value[0]);
    if theVersion.Some? && theVersion.value in versions.value {
      var v := theVersion.value;
      assert [root, v] == [root] + [v] && [v] == [v] + [];
      RootedPath(root, [v]);
      NonEmptyNamesCons(v, []);
      assert NonEmptyNames([]) == [];
      assert MakePaths([root, v]) == RootPath(root) + [v] || MakePaths([root, v]) == RootPath(root);
      var children := ListChildren(s, MakePaths([root, v]));
      assert children.Some?;
      var groups := SortAscending(children.value);
      return Some(VersionView(versions.value, theVersion, Some(groups)));
    }
    return Some(VersionView(versions.value, theVersion, None));
  }

  /* ----- items of a group ----- */

  function DataGroupPath(root: string, version: string, group: string): Path {
    MakePaths([root, version, group])
  }

  function ShadowGroupPath(root: string, version: string, group: string): Path {
    MakePaths([root, ShadowName(version), group])
  }

  /**
   * `getItems`: one item per child of the data group, with its name and
   * data, joined with the same-named child of the shadow group as comment.
   * The presentation order (`Collections.sort`) is not modelled.
   */
  function GetItems(s: Store, root: string, version: string, group: string): (items: set<DisplayItem>)
    ensures forall it | it in items ::
      var d := DataGroupPath(root, version, group);
      var c := ShadowGroupPath(root, version, group);
      && s.online && d in s.nodes && d + [it.name] in s.nodes
      && it.value == s.nodes[d + [it.name]]
      && it.comment == (if c in s.nodes && c + [it.name] in s.nodes then Some(s.nodes[c + [it.name]]) else None)
    ensures forall n | s.online && DataGroupPath(root, version, group) in s.nodes
                       && DataGroupPath(root, version, group) + [n] in s.nodes ::
      exists it | it in items :: it.name == n
  {
    var props := FindProperties(s, DataGroupPath(root, version, group));
    var comments := FindProperties(s, ShadowGroupPath(root, version, group));
    var items := set n | n in props :: DisplayItem(n, props[n], if n in comments then Some(comments[n]) else None);
    assert forall n | n in props :: DisplayItem(n, props[n], if n in comments then Some(comments[n]) else None) in items;
    items
  }

  /** Two items of a group never share a name, and an absent group has none. */
  lemma ItemsAreKeyedByName(s: Store, root: string, version: string, group: string)
    ensures forall a, b | a in GetItems(s, root, version, group) && b in GetItems(s, root, version, group) ::
      a.name == b.name ==> a == b
    ensures !s.online || DataGroupPath(root, version, group) !in s.nodes ==> GetItems(s, root, version, group) == {}
  {
  }

  /* ----- groups and properties ----- */

  /** `createGroup`: creates the trimmed group in the data tree only; an existing group is left as is. */
  function CreateGroup(s: Store, root: string, version: string, newGroup: string): (r: Store)
    ensures var g := DataGroupPath(root, Trim(version), Trim(newGroup));
      && (s.online && g !in s.nodes ==> WrittenAt(s, r, g, ""))
      && (!s.online || g in s.nodes ==> r == s)
    ensures Valid(s) ==> Valid(r)
  {
    var g := DataGroupPath(root, Trim(version), Trim(newGroup));
    MakePathsKeepsNonEmptyNames([root, Trim(version), Trim(newGroup)]);
    CreateNode(s, g).store
  }

  /**
   * `createProp`: creates the data node with the trimmed value; only when
   * that succeeds and the trimmed comment is non-empty, creates the comment
   * node too. A data node that exists already fails the call and nothing is
   * written. The comment write is create-if-absent as well: a comment left
   * at that path earlier is kept.
   */
  function CreateProp(s: Store, root: string, version: string, group: string, key: string,
                      value: Option<string>, comment: Option<string>): (r: Reply)
    ensures var p := PropPath(root, Trim(version), Trim(group), Trim(key));
      r.ok <==> s.online && p !in s.nodes
    ensures !r.ok ==> r.store == s
    ensures var p := PropPath(root, Trim(version), Trim(group), Trim(key));
      r.ok ==> p in r.store.nodes && r.store.nodes[p] == Data(TrimOption(value))
    ensures var c := CommentPath(root, Trim(version), Trim(group), Trim(key));
      r.ok && HasText(TrimOption(comment)) && c !in s.nodes ==>
        c in r.store.nodes && r.store.nodes[c] == TrimOption(comment).value
    ensures r.ok && !HasText(TrimOption(comment)) ==>
      WrittenAt(s, r.store, PropPath(root, Trim(version), Trim(group), Trim(key)), Data(TrimOption(value)))
    ensures forall q | q in s.nodes :: q in r.store.nodes && r.store.nodes[q] == s.nodes[q]
    ensures var p := PropPath(root, Trim(version), Trim(group), Trim(key));
      var c := CommentPath(root, Trim(version), Trim(group), Trim(key));
      forall q | q in r.store.nodes && q !in s.nodes :: q <= p || (HasText(TrimOption(comment)) && q <= c)
    ensures Valid(s) ==> Valid(r.store)
  {
    var v, g, k := Trim(version), Trim(group), Trim(key);
    MakePathsKeepsNonEmptyNames([root, v, g, k]);
    MakePathsKeepsNonEmptyNames([root, ShadowName(v), g, k]);
    CommentPathApart(root, v, g, k);
    CreateWithComment(s, PropPath(root, v, g, k), CommentPath(root, v, g, k), TrimOption(value), TrimOption(comment))
  }

  /**
   * The two creates of `createProp` on given paths: the data node `p`
   * first; the comment node `c` only when that succeeded and the comment
   * has text.
   */
  function CreateWithComment(s: Store, p: Path, c: Path, value: Option<string>, comment: Option<string>): (r: Reply)
    ensures r.ok <==> s.online && p !in s.nodes
    ensures !r.ok ==> r.store == s
    ensures r.ok && p != c ==> p in r.store.nodes && r.store.nodes[p] == Data(value)
    ensures r.ok && HasText(comment) && c !in s.nodes && !(c <= p) ==> c in r.store.nodes && r.store.nodes[c] == comment.value
    ensures r.ok && !HasText(comment) ==> WrittenAt(s, r.store, p, Data(value))
    ensures Grows(s, r.store)
    ensures forall q | q in r.store.nodes && q !in s.nodes :: q <= p || (HasText(comment) && q <= c)
    ensures Valid(s) && NamesNonEmpty(p) && NamesNonEmpty(c) ==> Valid(r.store)
  {
    var data := CreateProperty(s, p, value);
    CreateGrows(s, p, value);
    if data.ok && HasText(comment) then
      var withComment := CreateProperty(data.store, c, comment);
      CreateGrows(data.store, c, comment);
      GrowsTransitive(s, data.store, withComment.store);
      Reply(withComment.store, true)
    else
      data
  }

  /**
   * `updateProp`: upserts the trimmed value at the data node and the
   * trimmed comment at the comment node, and always reports success. A
   * null value or comment makes that one write fail without effect.
   */
  function UpdateProp(s: Store, root: string, version: string, group: string, key: string,
                      value: Option<string>, comment: Option<string>): (r: Reply)
    ensures r.ok
    ensures var p := PropPath(root, Trim(version), Trim(group), Trim(key));
      s.online && value.Some? ==> GetValue(r.store, p) == Some(Trim(value.value))
    ensures var c := CommentPath(root, Trim(version), Trim(group), Trim(key));
      s.online && comment.Some? ==> GetValue(r.store, c) == Some(Trim(comment.value))
    ensures !s.online || (value.None? && comment.None?) ==> r.store == s
    ensures var p := PropPath(root, Trim(version), Trim(group), Trim(key));
      var c := CommentPath(root, Trim(version), Trim(group), Trim(key));
      forall q | q in s.nodes && q != p && q != c :: q in r.store.nodes && r.store.nodes[q] == s.nodes[q]
    ensures var p := PropPath(root, Trim(version), Trim(group), Trim(key));
      value.None? && Trim(version) != "" ==> NodeKept(s, r.store, p)
    ensures var c := CommentPath(root, Trim(version), Trim(group), Trim(key));
      comment.None? ==> NodeKept(s, r.store, c)
    ensures var p := PropPath(root, Trim(version), Trim(group), Trim(key));
      var c := CommentPath(root, Trim(version), Trim(group), Trim(key));
      forall q | q in r.store.nodes && q !in s.nodes :: (value.Some? && q <= p) || (comment.Some? && q <= c)
    ensures Valid(s) ==> Valid(r.store)
  {
    var v, g, k := Trim(version), Trim(group), Trim(key);
    MakePathsKeepsNonEmptyNames([root, v, g, k]);
    MakePathsKeepsNonEmptyNames([root, ShadowName(v), g, k]);
    CommentPathApart(root, v, g, k);
    PropPathApart(root, v, g, k);
    UpdateWithComment(s, PropPath(root, v, g, k), CommentPath(root, v, g, k), TrimOption(value), TrimOption(comment))
  }

  /** The two upserts of `updateProp` on given paths: the data node `p`, then the comment node `c`. */
  function UpdateWithComment(s: Store, p: Path, c: Path, value: Option<string>, comment: Option<string>): (r: Reply)
    ensures r.ok
    ensures s.online && value.Some? && p != c ==> GetValue(r.store, p) == value
    ensures s.online && comment.Some? ==> GetValue(r.store, c) == comment
    ensures !s.online || (value.None? && comment.None?) ==> r.store == s
    ensures forall q | q in s.nodes && q != p && q != c :: q in r.store.nodes && r.store.nodes[q] == s.nodes[q]
    ensures value.None? && !(p <= c) ==> NodeKept(s, r.store, p)
    ensures comment.None? && !(c <= p) ==> NodeKept(s, r.store, c)
    ensures forall q | q in r.store.nodes && q !in s.nodes :: (value.Some? && q <= p) || (comment.Some? && q <= c)
    ensures Valid(s) && NamesNonEmpty(p) && NamesNonEmpty(c) ==> Valid(r.store)
  {
    var afterValue := UpdateProperty(s, p, value);
    var afterComment := UpdateProperty(afterValue.store, c, comment);
    Reply(afterComment.store, true)
  }

  /** What a delete handler removes: `p` and its subtree, and nothing else. */
  ghost predicate RemovedSubtree(s: Store, r: Store, p: Path) {
    && r.online == s.online
    && (forall q | q in r.nodes :: q in s.nodes && r.nodes[q] == s.nodes[q])
    && (forall q | q in s.nodes && !(p <= q) :: q in r.nodes)
    && (s.online ==> forall q | p <= q && q != [] :: q !in r.nodes)
  }

  /** The comment shadow of `version` is exactly as it was. */
  ghost predicate ShadowUnchanged(s: Store, r: Store, root: string, version: string) {
    forall q | ShadowVersionPath(root, version) <= q ::
      (q in r.nodes <==> q in s.nodes) && (q in r.nodes ==> r.nodes[q] == s.nodes[q])
  }

  /**
   * `deleteProp`: deletes the data node and everything below it, always
   * reports success, and leaves the comment shadow alone.
   */
  function DeleteProp(s: Store, root: string, version: string, group: string, key: string): (r: Reply)
    requires Valid(s)
    ensures r.ok
    ensures RemovedSubtree(s, r.store, PropPath(root, version, group, key))
    ensures version != "" ==> ShadowUnchanged(s, r.store, root, version)
    ensures Valid(r.store)
  {
    var p := PropPath(root, version, group, key);
    var t := DeleteProperty(s, p);
    assert RemovedSubtree(s, t, p) by {
      forall q | p <= q && q in s.nodes ensures p in s.nodes {
        PrefixClosed(s, q, |p|);
        assert q[..|p|] == p;
      }
    }
    assert version != "" ==> ShadowUnchanged(s, t, root, version) by {
      if version != "" {
        forall q | ShadowVersionPath(root, version) <= q
          ensures (q in t.nodes <==> q in s.nodes) && (q in t.nodes ==> t.nodes[q] == s.nodes[q])
        {
          assert [root, version, group, key] == [root, version] + [group, key];
          DataOutsideShadow(root, version, [group, key], q);
        }
      }
    }
    Reply(t, true)
  }

  /**
   * `deleteGroup`: deletes the data group and all its properties, always
   * reports success, and leaves the comment shadow alone.
   */
  function DeleteGroup(s: Store, root: string, version: string, group: string): (r: Reply)
    requires Valid(s)
    ensures r.ok
    ensures RemovedSubtree(s, r.store, DataGroupPath(root, version, group))
    ensures version != "" ==> ShadowUnchanged(s, r.store, root, version)
    ensures Valid(r.store)
  {
    var p := DataGroupPath(root, version, group);
    var t := DeleteProperty(s, p);
    assert RemovedSubtree(s, t, p) by {
      forall q | p <= q && q in s.nodes ensures p in s.nodes {
        PrefixClosed(s, q, |p|);
        assert q[..|p|] == p;
      }
    }
    assert version != "" ==> ShadowUnchanged(s, t, root, version) by {
      if version != "" {
        forall q | ShadowVersionPath(root, version) <= q
          ensures (q in t.nodes <==> q in s.nodes) && (q in t.nodes ==> t.nodes[q] == s.nodes[q])
        {
          assert [root, version, group] == [root, version] + [group];
          DataOutsideShadow(root, version, [group], q);
        }
      }
    }
    Reply(t, true)
  }

  /* ----- versions: creation and cloning ----- */

  /** `r` is `s` with nodes added only: every existing node keeps its data. */
  ghost predicate Grows(s: Store, r: Store) {
    && r.online == s.online
    && forall q | q in s.nodes :: q in r.nodes && r.nodes[q] == s.nodes[q]
  }

  /** Neither path lies below the other, so their subtrees are disjoint. */
  predicate Apart(a: Path, b: Path) {
    !(a <= b) && !(b <= a)
  }

  /** Two prefixes of one path are comparable. */
  lemma PrefixesComparable(a: Path, b: Path, q: Path)
    requires a <= q && b <= q
    ensures a <= b || b <= a
  {
    if |a| <= |b| {
      assert a == q[..|a|] == b[..|a|];
    } else {
      assert b == q[..|b|] == a[..|b|];
    }
  }

  /** Siblings with different names are apart. */
  lemma SiblingsApart(parent: Path, a: string, b: string)
    requires a != b
    ensures Apart(parent + [a], parent + [b])
  {
    assert (parent + [a])[|parent|] == a && (parent + [b])[|parent|] == b;
  }

  /**
   * A node `cloneVersion(src, dst)` may add, with the data it gets: an
   * empty ancestor of `dst`, an empty group `dst/g` for a group `src/g`, or
   * a property `dst/g/k` holding the data of `src/g/k`.
   */
  ghost predicate ClonedNode(s: Store, src: Path, dst: Path, q: Path, v: string) {
    || (q <= dst && v == "")
    || (dst < q && |q| == |dst| + 1 && src + q[|dst|..] in s.nodes && v == "")
    || (dst < q && |q| == |dst| + 2 && src + q[|dst|..] in s.nodes && v == s.nodes[src + q[|dst|..]])
  }

  ghost predicate ClonedOnly(s: Store, r: Store, src: Path, dst: Path) {
    forall q | q in r.nodes && q !in s.nodes :: ClonedNode(s, src, dst, q, r.nodes[q])
  }

  /** Cloning apart from the source leaves the source subtree as it was. */
  lemma {:induction false} SourceIntact(s: Store, r: Store, src: Path, dst: Path, q: Path)
    requires Apart(src, dst) && Grows(s, r) && ClonedOnly(s, r, src, dst)
    requires src <= q && q in r.nodes
    ensures q in s.nodes && r.nodes[q] == s.nodes[q]
  {
    if q !in s.nodes {
      assert ClonedNode(s, src, dst, q, r.nodes[q]);
      if !(q <= dst) {
        PrefixesComparable(src, dst, q);
      }
    }
  }

  /** In a well-formed tree every ancestor of a node exists. */
  lemma AncestorPresent(s: Store, p: Path, q: Path)
    requires Valid(s) && q in s.nodes && p <= q
    ensures p in s.nodes
  {
    PrefixClosed(s, q, |p|);
    assert q[..|p|] == p;
  }

  /** In a well-formed tree, creating a child of an existing node adds that child and nothing else. */
  lemma {:induction false} OnlyChildAdded(t: Store, u: Store, parent: Path, k: string, v: string)
    requires Valid(t) && parent in t.nodes && parent + [k] !in t.nodes
    requires WrittenAt(t, u, parent + [k], v)
    ensures forall q | q in u.nodes && q !in t.nodes :: q == parent + [k]
  {
    forall q | q in u.nodes && q !in t.nodes ensures q == parent + [k] {
      if q != parent + [k] {
        assert q < parent + [k];
        assert q == parent[..|q|];
        PrefixClosed(t, parent, |q|);
      }
    }
  }

  /** `q` is a child of `parent` named after a key of `props`, holding that key's data. */
  ghost predicate CopiedChild(parent: Path, props: map<string, string>, q: Path, v: string) {
    |q| == |parent| + 1 && q[..|parent|] == parent && q[|parent|] in props && v == props[q[|parent|]]
  }

  /**
   * The inner loop of `cloneVersion`: creates `dstGroup/k` holding
   * `props[k]` for every property of the source group, leaving any that
   * exists already untouched.
   */
  method CopyProperties(t: Store, dstGroup: Path, props: map<string, string>) returns (r: Store)
    requires Valid(t) && NamesNonEmpty(dstGroup) && (t.online ==> dstGroup in t.nodes)
    requires forall k | k in props :: k != ""
    ensures Valid(r) && Grows(t, r)
    ensures forall q | q in r.nodes && q !in t.nodes :: CopiedChild(dstGroup, props, q, r.nodes[q])
    ensures t.online ==> forall k | k in props :: dstGroup + [k] in r.nodes
    ensures (forall k | k in props :: dstGroup + [k] in t.nodes) ==> r == t
  {
    r := t;
    var todo := props.Keys;
    while todo != {}
      invariant todo <= props.Keys
      invariant Valid(r) && Grows(t, r)
      invariant forall q | q in r.nodes && q !in t.nodes :: CopiedChild(dstGroup, props, q, r.nodes[q])
      invariant t.online ==> forall k | k in props && k !in todo :: dstGroup + [k] in r.nodes
      invariant (forall k | k in props :: dstGroup + [k] in t.nodes) ==> r == t
      decreases |todo|
    {
      var k :| k in todo;
      var reply := CreateProperty(r, dstGroup + [k], Some(props[k]));
      CopyStep(t, r, reply.store, dstGroup, props, k);
      r := reply.store;
      todo := todo - {k};
    }
  }

  /** In a well-formed tree a child's name is never empty. */
  lemma ChildNameNonEmpty(s: Store, p: Path, c: string)
    requires Valid(s) && p + [c] in s.nodes
    ensures c != ""
  {
    assert (p + [c])[|p|] == c;
  }

  /** One property of the inner loop of `cloneVersion` keeps its invariant. */
  lemma {:induction false} CopyStep(t: Store, r: Store, u: Store, dstGroup: Path, props: map<string, string>, k: string)
    requires k in props && k != "" && NamesNonEmpty(dstGroup)
    requires Valid(r) && Grows(t, r) && (t.online ==> dstGroup in t.nodes)
    requires forall q | q in r.nodes && q !in t.nodes :: CopiedChild(dstGroup, props, q, r.nodes[q])
    requires u == CreateProperty(r, dstGroup + [k], Some(props[k])).store
    ensures Valid(u) && Grows(r, u) && Grows(t, u)
    ensures forall q | q in u.nodes && q !in t.nodes :: CopiedChild(dstGroup, props, q, u.nodes[q])
    ensures t.online ==> dstGroup + [k] in u.nodes
    ensures dstGroup + [k] in r.nodes ==> u == r
  {
    var p := dstGroup + [k];
    if r.online && p !in r.nodes {
      OnlyChildAdded(r, u, dstGroup, k, props[k]);
      assert p[..|dstGroup|] == dstGroup && p[|dstGroup|] == k;
      assert CopiedChild(dstGroup, props, p, u.nodes[p]);
    }
  }

  /**
   * `cloneVersion(src, dst)`: for every group `g` of `src`, creates the
   * empty group `dst/g`, then creates `dst/g/k` with the data of `src/g/k`
   * for each of its properties. Every create is create-if-absent, so
   * existing nodes under `dst` keep their data. Both callers pass
   * sibling versions, or one version twice, which makes this a no-op.
   */
  method CloneVersion(s: Store, src: Path, dst: Path) returns (r: Store)
    requires Valid(s) && NamesNonEmpty(dst)
    requires src == dst || Apart(src, dst)
    ensures Valid(r) && Grows(s, r) && ClonedOnly(s, r, src, dst)
    ensures src == dst ==> r == s
    ensures s.online ==> forall g | src + [g] in s.nodes :: dst + [g] in r.nodes
    ensures s.online ==> forall g, k | src + [g, k] in s.nodes :: dst + [g, k] in r.nodes
  {
    r := s;
    var groups := ListChildren(s, src);
    if groups.None? {
      forall g | s.online && src + [g] in s.nodes ensures false {
        AncestorPresent(s, src, src + [g]);
      }
      forall g, k | s.online && src + [g, k] in s.nodes ensures false {
        AncestorPresent(s, src, src + [g, k]);
      }
      return;
    }
    r := CloneGroups(s, src, dst, groups.value);
    forall g, k | src + [g, k] in s.nodes ensures src + [g] in s.nodes {
      AncestorPresent(s, src + [g], src + [g, k]);
    }
  }

  /** The loop of `cloneVersion` over the source groups listed at its start. */
  method CloneGroups(s: Store, src: Path, dst: Path, groups: set<string>) returns (r: Store)
    requires Valid(s) && s.online && NamesNonEmpty(dst)
    requires src == dst || Apart(src, dst)
    requires forall g | g in groups :: src + [g] in s.nodes
    ensures Valid(r) && Grows(s, r) && ClonedOnly(s, r, src, dst)
    ensures src == dst ==> r == s
    ensures forall g | g in groups :: dst + [g] in r.nodes
    ensures forall g, k | g in groups && src + [g, k] in s.nodes :: dst + [g, k] in r.nodes
  {
    r := s;
    var todo := groups;
    while todo != {}
      invariant todo <= groups
      invariant Valid(r) && Grows(s, r) && ClonedOnly(s, r, src, dst)
      invariant src == dst ==> r == s
      invariant forall g | g in groups && g !in todo :: dst + [g] in r.nodes
      invariant forall g, k | g in groups && g !in todo && src + [g, k] in s.nodes :: dst + [g, k] in r.nodes
      decreases |todo|
    {
      var g :| g in todo;
      r := CloneGroup(s, r, src, dst, g);
      todo := todo - {g};
    }
  }

  /** One iteration of `cloneVersion`: the group `dst/g` and the properties of `src/g`. */
  method CloneGroup(s: Store, r: Store, src: Path, dst: Path, g: string) returns (copied: Store)
    requires Valid(s) && s.online && src + [g] in s.nodes && NamesNonEmpty(dst)
    requires src == dst || Apart(src, dst)
    requires Valid(r) && Grows(s, r) && ClonedOnly(s, r, src, dst) && (src == dst ==> r == s)
    ensures Valid(copied) && Grows(r, copied) && Grows(s, copied) && ClonedOnly(s, copied, src, dst)
    ensures src == dst ==> copied == s
    ensures dst + [g] in copied.nodes
    ensures forall k | src + [g, k] in s.nodes :: dst + [g, k] in copied.nodes
  {
    ChildNameNonEmpty(s, src, g);
    var created := CreateNode(r, dst + [g]);
    CreateNodeEffect(r, dst + [g]);
    var props := FindProperties(created.store, src + [g]);
    assert ListsProperties(created.store, src + [g], props);
    forall k | k in props ensures k != "" {
      ChildNameNonEmpty(created.store, src + [g], k);
    }
    copied := CopyProperties(created.store, dst + [g], props);
    CloneStep(s, r, created.store, copied, src, dst, g, props);
  }

  /** The node of a version. */
  function VersionPath(root: string, version: string): Path {
    MakePaths([root, version])
  }

  /** A named version and its shadow are siblings below the root. */
  lemma VersionNodes(root: string, version: string)
    ensures ShadowVersionPath(root, version) == RootPath(root) + [ShadowName(version)]
    ensures NamesNonEmpty(ShadowVersionPath(root, version))
    ensures version != "" ==> VersionPath(root, version) == RootPath(root) + [version]
    ensures version != "" ==> NamesNonEmpty(VersionPath(root, version))
  {
    assert [root, ShadowName(version)] == [root, ShadowName(version)] + [];
    VersionPathShape(root, ShadowName(version), []);
    if version != "" {
      assert [root, version] == [root, version] + [];
      VersionPathShape(root, version, []);
    }
  }

  /** Where `createVersion` may add nodes: above the root, or in the new version or its shadow. */
  ghost predicate AddedForVersion(s: Store, r: Store, root: string, v: string) {
    forall q | q in r.nodes && q !in s.nodes ::
      q <= RootPath(root) || VersionPath(root, v) <= q || ShadowVersionPath(root, v) <= q
  }

  /**
   * `createVersion(version, fromVersion)`: both names are trimmed. A blank
   * or null version, an existing version or a backend failure reports
   * failure and changes nothing. Otherwise the version node and its shadow
   * (`versionNode + "$"`) are created and, when a source version is named,
   * its data tree is cloned into the new version and its shadow into the
   * new shadow.
   */
  method CreateVersion(s: Store, root: string, version: Option<string>, fromVersion: Option<string>)
    returns (r: Reply)
    requires Valid(s)
    ensures r.ok <==> HasText(TrimOption(version)) && s.online && VersionPath(root, Trim(version.value)) !in s.nodes
    ensures !r.ok ==> r.store == s
    ensures Valid(r.store) && Grows(s, r.store)
    ensures r.ok ==> (VersionPath(root, Trim(version.value)) in r.store.nodes
                      && ShadowVersionPath(root, Trim(version.value)) in r.store.nodes)
    ensures r.ok ==> AddedForVersion(s, r.store, root, Trim(version.value))
    ensures r.ok && !HasText(TrimOption(fromVersion)) ==>
      forall c :: VersionPath(root, Trim(version.value)) + [c] !in r.store.nodes
    ensures r.ok && HasText(TrimOption(fromVersion)) ==>
      VersionCloned(s, r.store, VersionPath(root, Trim(fromVersion.value)), VersionPath(root, Trim(version.value)))
    ensures r.ok && HasText(TrimOption(fromVersion)) ==>
      ShadowCloned(s, r.store, ShadowVersionPath(root, Trim(fromVersion.value)), ShadowVersionPath(root, Trim(version.value)))
  {
    var v := TrimOption(version);
    if !HasText(v) {
      return Reply(s, false);
    }
    r := CreateNamedVersion(s, root, v.value, TrimOption(fromVersion));
  }

  /** `createVersion` once the version name is known to be non-blank. */
  method CreateNamedVersion(s: Store, root: string, v: string, from: Option<string>) returns (r: Reply)
    requires Valid(s) && v != ""
    ensures r.ok <==> s.online && VersionPath(root, v) !in s.nodes
    ensures !r.ok ==> r.store == s
    ensures Valid(r.store) && Grows(s, r.store)
    ensures r.ok ==> VersionPath(root, v) in r.store.nodes && ShadowVersionPath(root, v) in r.store.nodes
    ensures r.ok ==> AddedForVersion(s, r.store, root, v)
    ensures r.ok && !HasText(from) ==> forall c :: VersionPath(root, v) + [c] !in r.store.nodes
    ensures r.ok && HasText(from) ==> VersionCloned(s, r.store, VersionPath(root, from.value), VersionPath(root, v))
    ensures r.ok && HasText(from) ==>
      ShadowCloned(s, r.store, ShadowVersionPath(root, from.value), ShadowVersionPath(root, v))
  {
    var versionNode := VersionPath(root, v);
    var shadowNode := ShadowVersionPath(root, v);
    VersionNodes(root, v);
    var created := CreateNode(s, versionNode);
    if !created.ok {
      return Reply(s, false);
    }
    var withShadow := CreateNode(created.store, shadowNode);
    CreateNodeEffect(s, versionNode);
    CreateNodeEffect(created.store, shadowNode);
    var t := withShadow.store;
    VersionCreated(s, created.store, t, root, v);
    if HasText(from) {
      t := CopyFromVersion(s, t, root, v, from.value);
    }
    return Reply(t, true);
  }

  /** The two clones of `createVersion`: the source's data tree, then its shadow. */
  method CopyFromVersion(s: Store, t: Store, root: string, v: string, f: string) returns (r: Store)
    requires Valid(s) && s.online && v != "" && f != ""
    requires VersionPath(root, v) !in s.nodes
    requires Valid(t) && Grows(s, t) && forall q | q in t.nodes && q !in s.nodes :: |q| <= |RootPath(root)| + 1
    requires AddedForVersion(s, t, root, v)
    ensures Valid(r) && Grows(t, r)
    ensures VersionCloned(s, r, VersionPath(root, f), VersionPath(root, v))
    ensures ShadowCloned(s, r, ShadowVersionPath(root, f), ShadowVersionPath(root, v))
    ensures AddedForVersion(s, r, root, v)
  {
    VersionNodes(root, v);
    VersionNodes(root, f);
    if f != v {
      SiblingsApart(RootPath(root), f, v);
      assert ShadowName(f)[..|f|] == f && ShadowName(v)[..|v|] == v;
      SiblingsApart(RootPath(root), ShadowName(f), ShadowName(v));
    }
    var m1 := CloneVersion(t, VersionPath(root, f), VersionPath(root, v));
    var m2 := CloneVersion(m1, ShadowVersionPath(root, f), ShadowVersionPath(root, v));
    ClonesLand(s, t, m1, m2, root, v, f);
    GrowsTransitive(t, m1, m2);
    r := m2;
  }

  lemma GrowsTransitive(a: Store, b: Store, c: Store)
    requires Grows(a, b) && Grows(b, c)
    ensures Grows(a, c)
  {
  }

  /** Every property `src/g/k` of the source version exists as `dst/g/k` holding its data. */
  ghost predicate VersionCloned(s: Store, r: Store, src: Path, dst: Path) {
    && (forall g | src + [g] in s.nodes :: dst + [g] in r.nodes)
    && (forall g, k | src + [g, k] in s.nodes :: dst + [g, k] in r.nodes && r.nodes[dst + [g, k]] == s.nodes[src + [g, k]])
  }

  /**
   * Every comment `src/g/k` exists as `dst/g/k`; it holds the source's
   * comment unless a comment was already at that path.
   */
  ghost predicate ShadowCloned(s: Store, r: Store, src: Path, dst: Path) {
    forall g, k | src + [g, k] in s.nodes ::
      dst + [g, k] in r.nodes && (dst + [g, k] !in s.nodes ==> r.nodes[dst + [g, k]] == s.nodes[src + [g, k]])
  }

  /** After creating the version and its shadow: what was added, and that the version is empty. */
  lemma {:induction false} VersionCreated(s: Store, s1: Store, t: Store, root: string, v: string)
    requires Valid(s) && s.online && v != ""
    requires VersionPath(root, v) == RootPath(root) + [v]
    requires ShadowVersionPath(root, v) == RootPath(root) + [ShadowName(v)]
    requires VersionPath(root, v) !in s.nodes
    requires CreatedEmpty(s, s1, VersionPath(root, v)) && CreatedEmpty(s1, t, ShadowVersionPath(root, v))
    ensures Grows(s, t)
    ensures forall q | q in t.nodes && q !in s.nodes :: |q| <= |RootPath(root)| + 1
    ensures forall q | q in t.nodes && q !in s.nodes ::
      q <= RootPath(root) || q == VersionPath(root, v) || q == ShadowVersionPath(root, v)
    ensures forall c :: VersionPath(root, v) + [c] !in t.nodes
    ensures AddedForVersion(s, t, root, v)
  {
    forall c ensures VersionPath(root, v) + [c] !in s.nodes {
      if VersionPath(root, v) + [c] in s.nodes {
        AncestorPresent(s, VersionPath(root, v), VersionPath(root, v) + [c]);
      }
    }
  }

  /** The two clones of `createVersion` put the source's properties and comments in place. */
  lemma {:induction false} ClonesLand(s: Store, t: Store, m1: Store, m2: Store, root: string, v: string, f: string)
    requires Valid(s) && s.online && v != "" && f != ""
    requires VersionPath(root, v) == RootPath(root) + [v] && VersionPath(root, f) == RootPath(root) + [f]
    requires ShadowVersionPath(root, v) == RootPath(root) + [ShadowName(v)]
    requires ShadowVersionPath(root, f) == RootPath(root) + [ShadowName(f)]
    requires VersionPath(root, v) !in s.nodes
    requires Grows(s, t) && forall q | q in t.nodes && q !in s.nodes :: |q| <= |RootPath(root)| + 1
    requires AddedForVersion(s, t, root, v)
    requires Grows(t, m1) && ClonedOnly(t, m1, VersionPath(root, f), VersionPath(root, v))
    requires forall g | VersionPath(root, f) + [g] in t.nodes :: VersionPath(root, v) + [g] in m1.nodes
    requires forall g, k | VersionPath(root, f) + [g, k] in t.nodes :: VersionPath(root, v) + [g, k] in m1.nodes
    requires Grows(m1, m2) && ClonedOnly(m1, m2, ShadowVersionPath(root, f), ShadowVersionPath(root, v))
    requires forall g, k | ShadowVersionPath(root, f) + [g, k] in m1.nodes :: ShadowVersionPath(root, v) + [g, k] in m2.nodes
    ensures VersionCloned(s, m2, VersionPath(root, f), VersionPath(root, v))
    ensures ShadowCloned(s, m2, ShadowVersionPath(root, f), ShadowVersionPath(root, v))
    ensures AddedForVersion(s, m2, root, v)
  {
    DataCloneLands(s, t, m1, m2, VersionPath(root, f), VersionPath(root, v));
    ShadowCloneLands(s, t, m1, m2, root, v, f);
    ClonesStayInVersion(s, t, m1, m2, root, v, f);
  }

  lemma {:induction false} DataCloneLands(s: Store, t: Store, m1: Store, m2: Store, src: Path, dst: Path)
    requires Valid(s) && dst !in s.nodes
    requires Grows(s, t) && forall q | q in t.nodes && q !in s.nodes :: |q| <= |dst|
    requires Grows(t, m1) && ClonedOnly(t, m1, src, dst)
    requires forall g | src + [g] in t.nodes :: dst + [g] in m1.nodes
    requires forall g, k | src + [g, k] in t.nodes :: dst + [g, k] in m1.nodes
    requires Grows(m1, m2)
    ensures VersionCloned(s, m2, src, dst)
  {
    forall g, k | src + [g, k] in s.nodes
      ensures dst + [g, k] in m2.nodes && m2.nodes[dst + [g, k]] == s.nodes[src + [g, k]]
    {
      var q := dst + [g, k];
      if q in s.nodes {
        AncestorPresent(s, dst, q);
      }
      assert q !in t.nodes;
      assert ClonedNode(t, src, dst, q, m1.nodes[q]);
      assert q[|dst|..] == [g, k];
    }
  }

  lemma {:induction false} ShadowCloneLands(s: Store, t: Store, m1: Store, m2: Store, root: string, v: string, f: string)
    requires VersionPath(root, v) == RootPath(root) + [v]
    requires ShadowVersionPath(root, v) == RootPath(root) + [ShadowName(v)]
    requires Grows(s, t) && forall q | q in t.nodes && q !in s.nodes :: |q| <= |RootPath(root)| + 1
    requires Grows(t, m1) && ClonedOnly(t, m1, VersionPath(root, f), VersionPath(root, v))
    requires Grows(m1, m2) && ClonedOnly(m1, m2, ShadowVersionPath(root, f), ShadowVersionPath(root, v))
    requires forall g, k | ShadowVersionPath(root, f) + [g, k] in m1.nodes :: ShadowVersionPath(root, v) + [g, k] in m2.nodes
    ensures ShadowCloned(s, m2, ShadowVersionPath(root, f), ShadowVersionPath(root, v))
  {
    var ssrc, sdst := ShadowVersionPath(root, f), ShadowVersionPath(root, v);
    forall g, k | ssrc + [g, k] in s.nodes
      ensures sdst + [g, k] in m2.nodes && (sdst + [g, k] !in s.nodes ==> m2.nodes[sdst + [g, k]] == s.nodes[ssrc + [g, k]])
    {
      var q := sdst + [g, k];
      if q !in s.nodes {
        assert q !in t.nodes;
        var n := |RootPath(root)|;
        assert q[n] == ShadowName(v) && VersionPath(root, v)[n] == v && |ShadowName(v)| == |v| + 1;
        OutsideClone(t, m1, VersionPath(root, f), VersionPath(root, v), q);
        assert ClonedNode(m1, ssrc, sdst, q, m2.nodes[q]);
        assert q[|sdst|..] == [g, k];
      }
    }
  }

  /** A clone adds nothing apart from its destination and the destination's ancestors. */
  lemma OutsideClone(t: Store, m: Store, src: Path, dst: Path, q: Path)
    requires ClonedOnly(t, m, src, dst) && q !in t.nodes && Apart(q, dst)
    ensures q !in m.nodes
  {
  }

  lemma {:induction false} ClonesStayInVersion(s: Store, t: Store, m1: Store, m2: Store, root: string, v: string, f: string)
    requires VersionPath(root, v) == RootPath(root) + [v]
    requires ShadowVersionPath(root, v) == RootPath(root) + [ShadowName(v)]
    requires AddedForVersion(s, t, root, v)
    requires Grows(t, m1) && ClonedOnly(t, m1, VersionPath(root, f), VersionPath(root, v))
    requires Grows(m1, m2) && ClonedOnly(m1, m2, ShadowVersionPath(root, f), ShadowVersionPath(root, v))
    ensures AddedForVersion(s, m2, root, v)
  {
    var dst, sdst := VersionPath(root, v), ShadowVersionPath(root, v);
    forall q | q in m2.nodes && q !in s.nodes ensures q <= RootPath(root) || dst <= q || sdst <= q {
      if q !in t.nodes {
        if q in m1.nodes {
          assert ClonedNode(t, VersionPath(root, f), dst, q, m1.nodes[q]);
          if q <= dst && q != dst {
            assert q <= RootPath(root);
          }
        } else {
          assert ClonedNode(m1, ShadowVersionPath(root, f), sdst, q, m2.nodes[q]);
          if q <= sdst && q != sdst {
            assert q <= RootPath(root);
          }
        }
      }
    }
  }

  /** What `createProperty(p)` did to `r`: at most `p` and missing ancestors of it were added, empty. */
  ghost predicate CreatedEmpty(r: Store, t: Store, p: Path) {
    && Grows(r, t)
    && (r.online ==> p in t.nodes)
    && (p in r.nodes ==> t == r)
    && forall q | q in t.nodes && q !in r.nodes :: q <= p && t.nodes[q] == ""
  }

  lemma CreateNodeEffect(r: Store, p: Path)
    ensures CreatedEmpty(r, CreateNode(r, p).store, p)
  {
  }

  /** `props` is what `findProperties(p)` returns on `t`. */
  ghost predicate ListsProperties(t: Store, p: Path, props: map<string, string>) {
    && (forall k :: k in props <==> t.online && p in t.nodes && p + [k] in t.nodes)
    && (forall k | k in props :: props[k] == t.nodes[p + [k]])
  }

  /** Creating the group `dst/g` adds only nodes a clone may add. */
  lemma {:induction false} GroupCreated(s: Store, r: Store, created: Store, src: Path, dst: Path, g: string)
    requires src + [g] in s.nodes
    requires Grows(s, r) && ClonedOnly(s, r, src, dst)
    requires CreatedEmpty(r, created, dst + [g])
    ensures Grows(s, created) && ClonedOnly(s, created, src, dst)
  {
    forall q | q in created.nodes && q !in s.nodes ensures ClonedNode(s, src, dst, q, created.nodes[q]) {
      if q !in r.nodes {
        if q == dst + [g] {
          assert q[|dst|..] == [g];
        } else {
          assert q < dst + [g];
          assert q <= dst;
        }
      }
    }
  }

  /** While cloning apart from the source, the properties read from `src/g` are those of `s`. */
  lemma {:induction false} PropsFromSource(s: Store, created: Store, src: Path, dst: Path, g: string,
                                           props: map<string, string>)
    requires Apart(src, dst) && Grows(s, created) && ClonedOnly(s, created, src, dst)
    requires ListsProperties(created, src + [g], props)
    ensures forall k | k in props :: src + [g, k] in s.nodes && props[k] == s.nodes[src + [g, k]]
    ensures s.online && src + [g] in s.nodes ==> forall k | src + [g, k] in s.nodes :: k in props
  {
    forall k | k in props ensures src + [g, k] in s.nodes && props[k] == s.nodes[src + [g, k]] {
      assert src + [g] + [k] == src + [g, k];
      SourceIntact(s, created, src, dst, src + [g, k]);
    }
    forall k | s.online && src + [g] in s.nodes && src + [g, k] in s.nodes ensures k in props {
      assert src + [g] + [k] == src + [g, k];
    }
  }

  /** Copying the source group's properties adds only nodes a clone may add. */
  lemma {:induction false} PropsCopied(s: Store, created: Store, copied: Store, src: Path, dst: Path, g: string,
                                       props: map<string, string>)
    requires Grows(s, created) && ClonedOnly(s, created, src, dst) && Grows(created, copied)
    requires forall k | k in props :: src + [g, k] in s.nodes && props[k] == s.nodes[src + [g, k]]
    requires forall q | q in copied.nodes && q !in created.nodes :: CopiedChild(dst + [g], props, q, copied.nodes[q])
    ensures Grows(s, copied) && ClonedOnly(s, copied, src, dst)
  {
    forall q | q in copied.nodes && q !in s.nodes ensures ClonedNode(s, src, dst, q, copied.nodes[q]) {
      if q !in created.nodes {
        var parent := dst + [g];
        assert CopiedChild(parent, props, q, copied.nodes[q]);
        var k := q[|parent|];
        assert q == parent + [k];
        assert q[|dst|..] == [g, k];
        assert src + [g, k] in s.nodes && copied.nodes[q] == s.nodes[src + [g, k]];
        assert ClonedNode(s, src, dst, q, copied.nodes[q]);
      }
    }
  }

  /** Cloning a version onto itself finds every node present and changes nothing. */
  lemma {:induction false} CloneStepInPlace(s: Store, created: Store, copied: Store, src: Path, g: string,
                                            props: map<string, string>)
    requires s.online && src + [g] in s.nodes
    requires CreatedEmpty(s, created, src + [g])
    requires ListsProperties(created, src + [g], props)
    requires (forall k | k in props :: src + [g] + [k] in created.nodes) ==> copied == created
    ensures copied == s
  {
    assert created == s;
  }

  /** One group of `cloneVersion` keeps the loop's invariant. */
  lemma {:induction false} CloneStep(s: Store, r: Store, created: Store, copied: Store,
                                     src: Path, dst: Path, g: string, props: map<string, string>)
    requires Valid(s) && s.online && src + [g] in s.nodes && g != ""
    requires src == dst || Apart(src, dst)
    requires Valid(r) && Grows(s, r) && ClonedOnly(s, r, src, dst) && (src == dst ==> r == s)
    requires CreatedEmpty(r, created, dst + [g])
    requires ListsProperties(created, src + [g], props)
    requires Grows(created, copied)
    requires forall q | q in copied.nodes && q !in created.nodes :: CopiedChild(dst + [g], props, q, copied.nodes[q])
    requires forall k | k in props :: dst + [g] + [k] in copied.nodes
    requires (forall k | k in props :: dst + [g] + [k] in created.nodes) ==> copied == created
    ensures Grows(r, copied) && Grows(s, copied) && ClonedOnly(s, copied, src, dst)
    ensures src == dst ==> copied == s
    ensures dst + [g] in copied.nodes
    ensures forall k | src + [g, k] in s.nodes :: dst + [g, k] in copied.nodes
  {
    if src == dst {
      CloneStepInPlace(s, created, copied, src, g, props);
      return;
    }
    GroupCreated(s, r, created, src, dst, g);
    PropsFromSource(s, created, src, dst, g, props);
    PropsCopied(s, created, copied, src, dst, g, props);
    forall k | src + [g, k] in s.nodes ensures dst + [g, k] in copied.nodes {
      assert dst + [g] + [k] == dst + [g, k];
    }
  }

  /* ----- import of a group file ----- */

  /** `PROPERTIES`: the file suffix of an exported group. */
  const PropertiesSuffix: string := ".properties"

  /**
   * The name as `java.io.File` normalises it: trailing `/` characters are
   * dropped (a lone `/` keeps no name either way).
   */
  function DropTrailingSlashes(name: string): (r: string)
    ensures StartsWith(name, r)
    ensures |r| == 0 || r[|r| - 1] != '/'
    ensures forall k | |r| <= k < |name| :: name[k] == '/'
    ensures |name| == 0 || name[|name| - 1] != '/' ==> r == name
    decreases |name|
  {
    if |name| > 0 && name[|name| - 1] == '/' then
      var r := DropTrailingSlashes(name[..|name| - 1]);
      assert forall k | 0 <= k < |r| :: name[k] == name[..|name| - 1][k];
      r
    else name
  }

  /** `File.getName`: the last name of the normalised path, that is the part after its last `/`. */
  function BaseName(fileName: string): (r: string)
    ensures '/' !in r
    ensures '/' !in fileName ==> r == fileName
    ensures EndsWith(DropTrailingSlashes(fileName), r)
    ensures var t := DropTrailingSlashes(fileName);
      '/' in t ==> |r| < |t| && t[|t| - |r| - 1] == '/'
  {
    var t := DropTrailingSlashes(fileName);
    assert |fileName| == 0 || fileName[|fileName| - 1] in fileName;
    match LastIndexOf(t, '/')
    case None => t
    case Some(i) => t[i + 1..]
  }

  /** A trailing `/` does not change the name: `g/` names `g`, as `File` normalises it. */
  lemma BaseNameIgnoresTrailingSlash(name: string)
    ensures BaseName(name + "/") == BaseName(name)
  {
    var s := name + "/";
    assert s[..|s| - 1] == name;
  }

  /** A name up to its last `.`, or all of it when it has none. */
  function StripExtension(name: string): (r: string)
    ensures StartsWith(name, r)
    ensures '.' !in name ==> r == name
    ensures '.' in name ==> |r| < |name| && name[|r|] == '.' && '.' !in name[|r| + 1..]
  {
    match LastIndexOf(name, '.')
    case None => name
    case Some(i) => name[..i]
  }

  /** `Files.getNameWithoutExtension`: the base name up to its last `.`. */
  function NameWithoutExtension(fileName: string): (r: string)
    ensures '/' !in r && StartsWith(BaseName(fileName), r)
    ensures '.' !in BaseName(fileName) ==> r == BaseName(fileName)
  {
    var base := BaseName(fileName);
    var r := StripExtension(base);
    assert forall k | 0 <= k < |r| :: r[k] == base[k];
    r
  }

  /** An exported group file `g.properties` is imported back into group `g`. */
  lemma GroupFileName(group: string)
    requires '/' !in group
    ensures NameWithoutExtension(group + PropertiesSuffix) == group
  {
    var file := group + PropertiesSuffix;
    assert '/' !in file by {
      assert forall k | 0 <= k < |file| :: file[k] == if k < |group| then group[k] else PropertiesSuffix[k - |group|];
    }
    assert BaseName(file) == file;
    var i := LastIndexOf(file, '.').value;
    assert file[|group|] == '.';
    assert file[..|group|] == group;
  }

  /** The node name an imported item is saved under. */
  function ItemName(item: DisplayItem): string {
    Trim(item.name)
  }

  /** `makePath` with one more segment extends `makePaths`. */
  lemma {:induction false} MakePathsSnoc(segments: seq<string>, last: string)
    ensures MakePaths(segments + [last]) == MakePath(MakePaths(segments), last)
  {
    MakePathsKeepsNonEmptyNames(segments + [last]);
    MakePathsKeepsNonEmptyNames(segments);
    NonEmptyNamesAppend(segments, [last]);
    NonEmptyNamesCons(last, []);
  }

  lemma {:induction false} NonEmptyNamesAppend(a: seq<string>, b: seq<string>)
    ensures NonEmptyNames(a + b) == NonEmptyNames(a) + NonEmptyNames(b)
    decreases |a|
  {
    if |a| > 0 {
      assert a + b == [a[0]] + (a[1..] + b) && a == [a[0]] + a[1..];
      NonEmptyNamesCons(a[0], a[1..] + b);
      NonEmptyNamesCons(a[0], a[1..]);
      NonEmptyNamesAppend(a[1..], b);
    } else {
      assert a + b == b;
    }
  }

  /** What `createProperty(p, v)` does to nodes that are not `p` or an ancestor of it: nothing. */
  lemma CreateLeavesOthers(s: Store, p: Path, v: Option<string>, q: Path)
    requires !(q <= p)
    ensures q in CreateProperty(s, p, v).store.nodes <==> q in s.nodes
    ensures q in s.nodes ==> CreateProperty(s, p, v).store.nodes[q] == s.nodes[q]
  {
  }

  lemma CreateGrows(s: Store, p: Path, v: Option<string>)
    ensures Grows(s, CreateProperty(s, p, v).store)
    ensures s.online ==> p in CreateProperty(s, p, v).store.nodes
    ensures s.online && p !in s.nodes ==> CreateProperty(s, p, v).store.nodes[p] == Data(v)
  {
  }

  /** One create the import issues: a path and the data handed to `createProperty` for it. */
  datatype Write = Write(path: Path, value: Option<string>)

  /** The two creates of one imported item: its data node, then its comment node. */
  function ItemWrites(data: Path, comment: Path, item: DisplayItem): seq<Write> {
    [Write(MakePath(data, ItemName(item)), Some(Trim(item.value))),
     Write(MakePath(comment, ItemName(item)), TrimOption(item.comment))]
  }

  /** The creates of the `forEach` of `saveGroup`, item after item, in file order. */
  function ImportWrites(data: Path, comment: Path, items: seq<DisplayItem>): (ws: seq<Write>)
    ensures |ws| == 2 * |items|
    decreases |items|
  {
    if |items| == 0 then [] else ItemWrites(data, comment, items[0]) + ImportWrites(data, comment, items[1..])
  }

  /** Every item's two writes are among the import writes. */
  lemma {:induction false} ImportWritesCover(data: Path, comment: Path, items: seq<DisplayItem>, item: DisplayItem)
    requires item in items
    ensures ItemWrites(data, comment, item)[0] in ImportWrites(data, comment, items)
    ensures ItemWrites(data, comment, item)[1] in ImportWrites(data, comment, items)
    decreases |items|
  {
    if item != items[0] {
      assert item in items[1..];
      ImportWritesCover(data, comment, items[1..], item);
    }
  }

  lemma {:induction false} ImportWritesAppend(data: Path, comment: Path, a: seq<DisplayItem>, b: seq<DisplayItem>)
    ensures ImportWrites(data, comment, a + b) == ImportWrites(data, comment, a) + ImportWrites(data, comment, b)
    decreases |a|
  {
    if |a| > 0 {
      assert (a + b)[0] == a[0] && (a + b)[1..] == a[1..] + b;
      ImportWritesAppend(data, comment, a[1..], b);
    } else {
      assert a + b == b;
    }
  }

  /** No write of `ws` is at or below `q`, so none of them creates `q`. */
  ghost predicate Avoids(ws: seq<Write>, q: Path)
    decreases |ws|
  {
    |ws| == 0 || (!(q <= ws[0].path) && Avoids(ws[1..], q))
  }

  lemma {:induction false} AvoidsAppend(a: seq<Write>, b: seq<Write>, q: Path)
    requires Avoids(a, q) && Avoids(b, q)
    ensures Avoids(a + b, q)
    decreases |a|
  {
    if |a| == 0 {
      assert a + b == b;
    } else {
      assert (a + b)[0] == a[0] && (a + b)[1..] == a[1..] + b;
      AvoidsAppend(a[1..], b, q);
    }
  }

  /** Items of other names never write at or below the name's data and comment nodes. */
  lemma {:induction false} ImportWritesAvoid(data: Path, comment: Path, items: seq<DisplayItem>, n: string)
    requires Apart(data, comment)
    requires forall item | item in items :: ItemName(item) != n
    ensures Avoids(ImportWrites(data, comment, items), data + [n])
    ensures Avoids(ImportWrites(data, comment, items), comment + [n])
    decreases |items|
  {
    if |items| > 0 {
      var first, rest := ItemWrites(data, comment, items[0]), ImportWrites(data, comment, items[1..]);
      assert items[0] in items;
      ItemWritesAvoid(data, comment, items[0], n);
      assert forall item | item in items[1..] :: item in items;
      ImportWritesAvoid(data, comment, items[1..], n);
      AvoidsAppend(first, rest, data + [n]);
      AvoidsAppend(first, rest, comment + [n]);
    }
  }

  /** An item of another name writes neither at nor above the name's data and comment nodes. */
  lemma ItemWritesAvoid(data: Path, comment: Path, item: DisplayItem, n: string)
    requires Apart(data, comment) && ItemName(item) != n
    ensures Avoids(ItemWrites(data, comment, item), data + [n])
    ensures Avoids(ItemWrites(data, comment, item), comment + [n])
  {
    var m := ItemName(item);
    var ws := ItemWrites(data, comment, item);
    SameNameOnly(data, n, m);
    NotUnderOther(data, comment, n, m);
    PairAvoids(ws[0], ws[1], data + [n]);
    NotUnderOther(comment, data, n, m);
    SameNameOnly(comment, n, m);
    PairAvoids(ws[0], ws[1], comment + [n]);
  }

  lemma PairAvoids(w0: Write, w1: Write, q: Path)
    requires !(q <= w0.path) && !(q <= w1.path)
    ensures Avoids([w0, w1], q)
  {
    assert [w0, w1][1..] == [w1] && [w1][1..] == [];
  }

  /** Every import write lands below the data group or the comment group. */
  lemma {:induction false} ImportWritesNamed(data: Path, comment: Path, items: seq<DisplayItem>)
    requires NamesNonEmpty(data) && NamesNonEmpty(comment)
    ensures forall w | w in ImportWrites(data, comment, items) :: NamesNonEmpty(w.path)
    decreases |items|
  {
    if |items| > 0 {
      MakePathNamesNonEmpty(data, ItemName(items[0]));
      MakePathNamesNonEmpty(comment, ItemName(items[0]));
      ImportWritesNamed(data, comment, items[1..]);
    }
  }

  /**
   * A run of `createProperty` calls, each create-if-absent with missing
   * ancestors: the tree only grows, and with the backend up every written
   * path exists afterwards.
   */
  function CreateAll(s: Store, ws: seq<Write>): (r: Store)
    ensures Grows(s, r)
    ensures s.online ==> forall w | w in ws :: w.path in r.nodes
    decreases |ws|
  {
    if |ws| == 0 then s
    else
      var s1 := CreateProperty(s, ws[0].path, ws[0].value).store;
      CreateGrows(s, ws[0].path, ws[0].value);
      var r := CreateAll(s1, ws[1..]);
      GrowsTransitive(s, s1, r);
      assert forall w | w in ws :: w == ws[0] || w in ws[1..];
      r
  }

  /** Creates at paths with non-empty names keep a tree well formed. */
  lemma {:induction false} CreateAllValid(s: Store, ws: seq<Write>)
    requires Valid(s)
    requires forall w | w in ws :: NamesNonEmpty(w.path)
    ensures Valid(CreateAll(s, ws))
    decreases |ws|
  {
    if |ws| > 0 {
      assert ws[0] in ws;
      CreateAllValid(CreateProperty(s, ws[0].path, ws[0].value).store, ws[1..]);
    }
  }

  lemma {:induction false} CreateAllAppend(s: Store, a: seq<Write>, b: seq<Write>)
    ensures CreateAll(s, a + b) == CreateAll(CreateAll(s, a), b)
    decreases |a|
  {
    if |a| > 0 {
      assert (a + b)[0] == a[0] && (a + b)[1..] == a[1..] + b;
      CreateAllAppend(CreateProperty(s, a[0].path, a[0].value).store, a[1..], b);
    } else {
      assert a + b == b;
    }
  }

  /** A path that is neither written nor above a written path is added or removed by no create. */
  lemma {:induction false} CreateAllAvoids(s: Store, ws: seq<Write>, q: Path)
    requires Avoids(ws, q)
    ensures q in CreateAll(s, ws).nodes <==> q in s.nodes
    decreases |ws|
  {
    if |ws| > 0 {
      CreateLeavesOthers(s, ws[0].path, ws[0].value, q);
      CreateAllAvoids(CreateProperty(s, ws[0].path, ws[0].value).store, ws[1..], q);
    }
  }

  /** The first write, to an absent path, decides that path's data. */
  lemma FirstWriteLands(s: Store, w: Write, ws: seq<Write>)
    requires s.online && w.path !in s.nodes
    ensures w.path in CreateAll(s, [w] + ws).nodes && CreateAll(s, [w] + ws).nodes[w.path] == Data(w.value)
  {
    assert ([w] + ws)[0] == w && ([w] + ws)[1..] == ws;
    CreateGrows(s, w.path, w.value);
  }

  /**
   * Of several creates of one absent path, the first decides its data:
   * nothing before it creates the path as an ancestor, and creates after
   * it fail.
   */
  lemma CreateAllFirstWins(s: Store, before: seq<Write>, w: Write, after: seq<Write>)
    requires s.online && w.path !in s.nodes
    requires Avoids(before, w.path)
    ensures w.path in CreateAll(s, before + [w] + after).nodes
    ensures CreateAll(s, before + [w] + after).nodes[w.path] == Data(w.value)
  {
    assert before + [w] + after == before + ([w] + after);
    CreateAllAppend(s, before, [w] + after);
    CreateAllAvoids(s, before, w.path);
    FirstWriteLands(CreateAll(s, before), w, after);
  }

  /**
   * The `forEach` of `saveGroup`: per item, creates the data node with the
   * trimmed value, then the comment node with the trimmed comment (an
   * empty node when there is none). Every create is create-if-absent.
   */
  function SaveItems(s: Store, data: Path, comment: Path, items: seq<DisplayItem>): (r: Store)
    ensures Grows(s, r)
    ensures s.online ==> forall item | item in items ::
      MakePath(data, ItemName(item)) in r.nodes && MakePath(comment, ItemName(item)) in r.nodes
  {
    var ws := ImportWrites(data, comment, items);
    forall item | item in items
      ensures ItemWrites(data, comment, item)[0] in ws && ItemWrites(data, comment, item)[1] in ws
    {
      ImportWritesCover(data, comment, items, item);
    }
    CreateAll(s, ws)
  }

  /** Importing into well-formed group paths keeps the tree well formed. */
  lemma SaveItemsValid(s: Store, data: Path, comment: Path, items: seq<DisplayItem>)
    ensures Valid(s) && NamesNonEmpty(data) && NamesNonEmpty(comment) ==> Valid(SaveItems(s, data, comment, items))
  {
    if Valid(s) && NamesNonEmpty(data) && NamesNonEmpty(comment) {
      ImportWritesNamed(data, comment, items);
      CreateAllValid(s, ImportWrites(data, comment, items));
    }
  }

  lemma MakePathNamesNonEmpty(parent: Path, child: string)
    ensures NamesNonEmpty(parent) ==> NamesNonEmpty(MakePath(parent, child))
  {
  }

  /**
   * `saveGroup`: reads the uploaded text line by line, parses it and saves
   * its items into the group named after the file.
   */
  function SaveGroup(s: Store, root: string, version: string, fileName: string, text: string): (r: Store)
    ensures |ParseInputFile(ReadLines(text))| == 0 ==> r == s
    ensures Grows(s, r)
    ensures s.online ==> forall item | item in ParseInputFile(ReadLines(text)) ::
      && MakePath(DataGroupPath(root, version, NameWithoutExtension(fileName)), ItemName(item)) in r.nodes
      && MakePath(ShadowGroupPath(root, version, NameWithoutExtension(fileName)), ItemName(item)) in r.nodes
    ensures Valid(s) ==> Valid(r)
  {
    var items := ParseInputFile(ReadLines(text));
    if |items| == 0 then s
    else
      var group := NameWithoutExtension(fileName);
      MakePathsKeepsNonEmptyNames([root, version, group]);
      MakePathsKeepsNonEmptyNames([root, ShadowName(version), group]);
      SaveItemsValid(s, DataGroupPath(root, version, group), ShadowGroupPath(root, version, group), items);
      SaveItems(s, DataGroupPath(root, version, group), ShadowGroupPath(root, version, group), items)
  }

  /**
   * Importing keeps the first of several items with one name: its value
   * and comment land at nodes that were absent, and later items with that
   * name change nothing.
   */
  lemma SaveItemsFirstWins(s: Store, data: Path, comment: Path, items: seq<DisplayItem>, i: nat, n: string)
    requires s.online && Apart(data, comment)
    requires i < |items| && ItemName(items[i]) == n && n != ""
    requires forall item | item in items[..i] :: ItemName(item) != n
    ensures data + [n] !in s.nodes ==> GetValue(SaveItems(s, data, comment, items), data + [n]) == Some(Trim(items[i].value))
    ensures comment + [n] !in s.nodes ==>
      GetValue(SaveItems(s, data, comment, items), comment + [n]) == Some(Data(TrimOption(items[i].comment)))
  {
    var dw := Write(data + [n], Some(Trim(items[i].value)));
    var cw := Write(comment + [n], TrimOption(items[i].comment));
    ImportWritesOf(data, comment, items, i, n);
    CreatePairFirstWins(s, ImportWrites(data, comment, items[..i]), dw, cw, ImportWrites(data, comment, items[i + 1..]));
  }

  /** Both writes of a pair decide their absent paths when nothing before them reaches those paths. */
  lemma CreatePairFirstWins(s: Store, before: seq<Write>, dw: Write, cw: Write, after: seq<Write>)
    requires s.online && Avoids(before, dw.path) && Avoids(before + [dw], cw.path)
    ensures dw.path !in s.nodes ==> GetValue(CreateAll(s, before + [dw, cw] + after), dw.path) == Some(Data(dw.value))
    ensures cw.path !in s.nodes ==> GetValue(CreateAll(s, before + [dw, cw] + after), cw.path) == Some(Data(cw.value))
  {
    if dw.path !in s.nodes {
      SplitPairFirst(before, dw, cw, after);
      CreateAllFirstWins(s, before, dw, [cw] + after);
    }
    if cw.path !in s.nodes {
      SplitPairSecond(before, dw, cw, after);
      CreateAllFirstWins(s, before + [dw], cw, after);
    }
  }

  lemma SplitPairFirst(before: seq<Write>, dw: Write, cw: Write, after: seq<Write>)
    ensures before + [dw, cw] + after == before + [dw] + ([cw] + after)
  {
  }

  lemma SplitPairSecond(before: seq<Write>, dw: Write, cw: Write, after: seq<Write>)
    ensures before + [dw, cw] + after == (before + [dw]) + [cw] + after
  {
  }

  /**
   * Where the first item of a name sits among the import writes: its two
   * writes follow those of the items before it, and none of those is at or
   * below its paths.
   */
  lemma ImportWritesOf(data: Path, comment: Path, items: seq<DisplayItem>, i: nat, n: string)
    requires Apart(data, comment)
    requires i < |items| && ItemName(items[i]) == n && n != ""
    requires forall item | item in items[..i] :: ItemName(item) != n
    ensures var before := ImportWrites(data, comment, items[..i]);
      var dw := Write(data + [n], Some(Trim(items[i].value)));
      var cw := Write(comment + [n], TrimOption(items[i].comment));
      && ImportWrites(data, comment, items) == before + [dw, cw] + ImportWrites(data, comment, items[i + 1..])
      && Avoids(before, data + [n])
      && Avoids(before + [dw], comment + [n])
  {
    var before := ImportWrites(data, comment, items[..i]);
    ImportWritesAt(data, comment, items, i);
    ImportWritesAvoid(data, comment, items[..i], n);
    NotUnderOther(comment, data, n, n);
    var dw := Write(data + [n], Some(Trim(items[i].value)));
    assert Avoids([dw], comment + [n]);
    AvoidsAppend(before, [dw], comment + [n]);
  }

  /** The writes of item `i` come right after those of the items before it. */
  lemma ImportWritesAt(data: Path, comment: Path, items: seq<DisplayItem>, i: nat)
    requires i < |items|
    ensures var before := ImportWrites(data, comment, items[..i]);
      && ImportWrites(data, comment, items) == before + ItemWrites(data, comment, items[i]) + ImportWrites(data, comment, items[i + 1..])
      && |before| == 2 * i
  {
    var rest := items[i..];
    assert items == items[..i] + rest;
    ImportWritesAppend(data, comment, items[..i], rest);
    assert rest[0] == items[i] && rest[1..] == items[i + 1..];
    var own, after := ItemWrites(data, comment, items[i]), ImportWrites(data, comment, items[i + 1..]);
    assert ImportWrites(data, comment, rest) == own + after;
    AppendAssociates(ImportWrites(data, comment, items[..i]), own, after);
  }

  lemma AppendAssociates(a: seq<Write>, b: seq<Write>, c: seq<Write>)
    ensures a + (b + c) == a + b + c
  {
  }

  /** A child of `a` is never `b`'s node for a name, nor above it, when `a` and `b` are apart. */
  lemma NotUnderOther(a: Path, b: Path, n: string, m: string)
    requires Apart(a, b)
    ensures !(a + [n] <= MakePath(b, m))
  {
    ExtendedPrefix(a, n, MakePath(b, m));
    PrefixOfSnoc(a, b, m);
  }

  lemma ExtendedPrefix(a: Path, n: string, c: Path)
    ensures a + [n] <= c ==> a <= c && |a| < |c|
  {
    assert (a + [n])[..|a|] == a;
  }

  lemma PrefixOfSnoc(a: Path, b: Path, m: string)
    ensures a <= b + [m] && |a| <= |b| ==> a <= b
  {
    assert (b + [m])[..|b|] == b;
  }

  /** Only the same name reaches a child of `a` or an ancestor of it. */
  lemma SameNameOnly(a: Path, n: string, m: string)
    requires n != m
    ensures !(a + [n] <= MakePath(a, m))
  {
    if m != "" {
      assert (a + [n])[|a|] == n && (a + [m])[|a|] == m;
    }
  }

  /** The data group and the comment group of a named version are apart. */
  lemma GroupsApart(root: string, version: string, group: string)
    requires version != ""
    ensures Apart(DataGroupPath(root, version, group), ShadowGroupPath(root, version, group))
  {
    VersionPathShape(root, version, [group]);
    VersionPathShape(root, ShadowName(version), [group]);
    assert [root, version, group] == [root, version] + [group];
    assert [root, ShadowName(version), group] == [root, ShadowName(version)] + [group];
    var n := |RootPath(root)|;
    assert DataGroupPath(root, version, group)[n] == version;
    assert ShadowGroupPath(root, version, group)[n] == ShadowName(version);
    assert |ShadowName(version)| == |version| + 1;
  }

  /* ----- export and re-import of a group ----- */

  /** `ZIP`: the file suffix of an exported version. */
  const ZipSuffix: string := ".zip"

  /** How `importData` treats an uploaded file, by its name. */
  datatype Upload = GroupFile | Archive | Ignored

  /** `importData`: a `.properties` file is one group, a `.zip` archive holds several, anything else is skipped. */
  function ImportKind(fileName: string): (k: Upload)
    ensures k == GroupFile <==> EndsWith(fileName, PropertiesSuffix)
    ensures k == Archive ==> EndsWith(fileName, ZipSuffix)
    ensures k == Ignored <==> !EndsWith(fileName, PropertiesSuffix) && !EndsWith(fileName, ZipSuffix)
  {
    if EndsWith(fileName, PropertiesSuffix) then GroupFile
    else if EndsWith(fileName, ZipSuffix) then Archive
    else Ignored
  }

  /** The file name `exportData` gives a single exported group, as written: `group + ".property"`. */
  function ExportedGroupFileName(group: string): string {
    group + ".property"
  }

  /** A single exported group comes back under a name the import skips. */
  lemma ExportedGroupFileIgnored(group: string)
    ensures ImportKind(ExportedGroupFileName(group)) == Ignored
  {
    var file := ExportedGroupFileName(group);
    assert file[|file| - 1] == 'y';
    SuffixEndsAlike(file, PropertiesSuffix);
    SuffixEndsAlike(file, ZipSuffix);
  }

  /** A string ends with the last character of each of its suffixes. */
  lemma SuffixEndsAlike(s: string, suffix: string)
    requires |suffix| > 0
    ensures EndsWith(s, suffix) ==> s[|s| - 1] == suffix[|suffix| - 1]
  {
    if EndsWith(s, suffix) {
      assert s[|s| - |suffix|..][|suffix| - 1] == s[|s| - 1];
    }
  }

  /** The file name a single exported group should get, matching the entries of a version export. */
  function GroupExportFileName(group: string): string {
    group + PropertiesSuffix
  }

  /** The corrected name is imported as one group file, into the group it came from. */
  lemma GroupExportFileImported(group: string)
    requires '/' !in group
    ensures ImportKind(GroupExportFileName(group)) == GroupFile
    ensures NameWithoutExtension(GroupExportFileName(group)) == group
  {
    var file := GroupExportFileName(group);
    assert file[|file| - |PropertiesSuffix|..] == PropertiesSuffix;
    GroupFileName(group);
  }

  /**
   * Export then import restores a group: a property whose data node is
   * missing gets its value back, and a missing comment node gets the
   * comment, or an empty node when the property had none.
   */
  lemma ImportRestoresExport(s: Store, root: string, version: string, group: string, items: seq<DisplayItem>, i: nat)
    requires s.online && version != "" && '/' !in group
    requires OnOneLine(root) && OnOneLine(version) && OnOneLine(group)
    requires forall j | 0 <= j < |items| :: Exportable(items[j]) && items[j].name != ""
    requires forall j, k | 0 <= j < k < |items| :: items[j].name != items[k].name
    requires i < |items|
    ensures var r := SaveGroup(s, root, version, GroupExportFileName(group), ExportText(root, version, group, items));
      var n := items[i].name;
      && (PropPath(root, version, group, n) !in s.nodes ==>
            GetValue(r, PropPath(root, version, group, n)) == Some(items[i].value))
      && (CommentPath(root, version, group, n) !in s.nodes ==>
            GetValue(r, CommentPath(root, version, group, n))
              == Some(if HasComment(items[i]) then items[i].comment.value else ""))
  {
    var n := items[i].name;
    var parsed := NormalisedAll(items);
    var data, comment := DataGroupPath(root, version, group), ShadowGroupPath(root, version, group);
    ImportOfExport(s, root, version, group, items);
    ParsedNames(items, i);
    GroupsApart(root, version, group);
    SaveItemsFirstWins(s, data, comment, parsed, i, n);
    ImportedPaths(root, version, group, n);
    assert parsed[i] == Normalised(items[i]);
    TrimFixesTrimmed(items[i].value);
    ParsedComment(items[i]);
  }

  /** Importing an exported group file saves the normalised items into that group. */
  lemma ImportOfExport(s: Store, root: string, version: string, group: string, items: seq<DisplayItem>)
    requires '/' !in group
    requires OnOneLine(root) && OnOneLine(version) && OnOneLine(group)
    requires forall j | 0 <= j < |items| :: Exportable(items[j])
    ensures SaveGroup(s, root, version, GroupExportFileName(group), ExportText(root, version, group, items))
      == SaveItems(s, DataGroupPath(root, version, group), ShadowGroupPath(root, version, group), NormalisedAll(items))
  {
    ExportFileRoundTrip(root, version, group, items);
    GroupExportFileImported(group);
    if |items| == 0 {
      assert ImportWrites(DataGroupPath(root, version, group), ShadowGroupPath(root, version, group), []) == [];
    }
  }

  /** The re-imported item `i` is saved under its own name, which no earlier item has. */
  lemma ParsedNames(items: seq<DisplayItem>, i: nat)
    requires forall j | 0 <= j < |items| :: Exportable(items[j]) && items[j].name != ""
    requires forall j, k | 0 <= j < k < |items| :: items[j].name != items[k].name
    requires i < |items|
    ensures ItemName(NormalisedAll(items)[i]) == items[i].name != ""
    ensures forall item | item in NormalisedAll(items)[..i] :: ItemName(item) != items[i].name
  {
    var before := NormalisedAll(items)[..i];
    assert forall j | 0 <= j < |before| :: before[j] == Normalised(items[j]);
    forall item | item in before ensures ItemName(item) != items[i].name {
      var j :| 0 <= j < |before| && before[j] == item;
      NormalisedName(items[j]);
    }
    NormalisedName(items[i]);
  }

  lemma NormalisedName(item: DisplayItem)
    requires Exportable(item)
    ensures ItemName(Normalised(item)) == item.name
  {
    TrimFixesTrimmed(item.name);
  }

  /** What the import writes at the comment node of an exported item. */
  lemma ParsedComment(item: DisplayItem)
    requires Exportable(item)
    ensures Data(TrimOption(Normalised(item).comment)) == if HasComment(item) then item.comment.value else ""
  {
    if HasComment(item) {
      TrimFixesTrimmed(item.comment.value);
    }
  }

  /** The import's data and comment nodes for a name are the property's nodes. */
  lemma ImportedPaths(root: string, version: string, group: string, n: string)
    requires n != ""
    ensures DataGroupPath(root, version, group) + [n] == PropPath(root, version, group, n)
    ensures ShadowGroupPath(root, version, group) + [n] == CommentPath(root, version, group, n)
  {
    MakePathsSnoc([root, version, group], n);
    MakePathsSnoc([root, ShadowName(version), group], n);
    assert [root, version, group] + [n] == [root, version, group, n];
    assert [root, ShadowName(version), group] + [n] == [root, ShadowName(version), group, n];
  }
}
