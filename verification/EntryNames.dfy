/**
 Member-name normalisation and collision detection of `backend/src/exportIntegrity.js`.
 */
module EntryNames {
  import opened Wrappers
  import opened Text

  const MANIFEST_FILENAME := "version-manifest.json"

  /** Resolves path segments against a stack, popping on `..`. */
  function Resolve(segments: seq<string>, stack: seq<string>): seq<string>
    decreases |segments|
  {
    if segments == [] then stack
    else
      var s := segments[0];
      if s == "." || s == "" then Resolve(segments[1..], stack)
      else if s == ".." then Resolve(segments[1..], if stack == [] then [] else stack[..|stack| - 1])
      else Resolve(segments[1..], stack + [s])
  }

  function Normalized(name: string): string {
    Join(Resolve(Split(name, '/'), []), '/')
  }

  predicate IsManifestAlias(name: string) {
    Normalized(name) == MANIFEST_FILENAME
  }

  method NormalizeEntryName(name: string) returns (r: string)
    ensures r == Normalized(name)
  {
    var segments := Split(name, '/');
    var resolved: seq<string> := [];
    var i := 0;
    assert segments[0..] == segments;
    while i < |segments|
      invariant 0 <= i <= |segments|
      invariant Resolve(segments[i..], resolved) == Resolve(segments, [])
    {
      var seg := segments[i];
      assert segments[i..][1..] == segments[i + 1..];
      i := i + 1;
      if seg == "." || seg == "" {
        continue;
      }
      if seg == ".." {
        resolved := if resolved == [] then [] else resolved[..|resolved| - 1];
        continue;
      }
      resolved := resolved + [seg];
    }
    r := Join(resolved, '/');
  }

  /** Normalised names are pairwise different. */
  ghost predicate CollisionFree(names: seq<string>) {
    forall i, j :: 0 <= i < j < |names| ==> Normalized(names[i]) != Normalized(names[j])
  }

  /** Reports the first pair of names that normalise to the same path; accepts exactly when there is none. */
  method DetectNameCollisions(names: seq<string>) returns (collision: Option<(string, string)>)
    ensures collision.None? <==> CollisionFree(names)
    ensures collision.Some? ==>
      exists i, j :: 0 <= i < j < |names| && CollisionFree(names[..j]) &&
        names[i] == collision.value.0 && names[j] == collision.value.1 &&
        Normalized(names[i]) == Normalized(names[j])
  {
    hide Normalized;
    var seen: map<string, string> := map[];
    var k := 0;
    while k < |names|
      invariant 0 <= k <= |names|
      invariant CollisionFree(names[..k])
      invariant forall n :: n in seen ==> exists i :: 0 <= i < k && names[i] == seen[n] && Normalized(names[i]) == n
      invariant forall i :: 0 <= i < k ==> Normalized(names[i]) in seen
    {
      var norm := Normalized(names[k]);
      if norm in seen {
        var i :| 0 <= i < k && names[i] == seen[norm] && Normalized(names[i]) == norm;
        return Some((seen[norm], names[k]));
      }
      seen := seen[norm := names[k]];
      k := k + 1;
    }
    assert names[..k] == names;
    return None;
  }

  // ----- what a normalised name looks like

  predicate CleanSegment(s: string) {
    s != "" && s != "." && s != ".." && '/' !in s
  }

  ghost predicate Clean(segments: seq<string>) {
    forall i :: 0 <= i < |segments| ==> CleanSegment(segments[i])
  }

  lemma {:induction false} ResolveIsClean(segments: seq<string>, stack: seq<string>)
    requires FreeOf(segments, '/') && Clean(stack)
    ensures Clean(Resolve(segments, stack))
    decreases |segments|
  {
    if segments != [] {
      var s := segments[0];
      if s == "." || s == "" {
        ResolveIsClean(segments[1..], stack);
      } else if s == ".." {
        ResolveIsClean(segments[1..], if stack == [] then [] else stack[..|stack| - 1]);
      } else {
        ResolveIsClean(segments[1..], stack + [s]);
      }
    }
  }

  lemma {:induction false} ResolveClean(segments: seq<string>, stack: seq<string>)
    requires Clean(segments)
    ensures Resolve(segments, stack) == stack + segments
    decreases |segments|
  {
    if segments != [] {
      ResolveClean(segments[1..], stack + [segments[0]]);
      assert stack + [segments[0]] + segments[1..] == stack + segments;
    }
  }

  /** A normalised name is empty or has only clean segments: no empty, `.` or `..` part survives. */
  lemma NormalizedIsClean(name: string)
    ensures Normalized(name) == "" || Clean(Split(Normalized(name), '/'))
  {
    var r := Resolve(Split(name, '/'), []);
    SplitFree(name, '/');
    ResolveIsClean(Split(name, '/'), []);
    if r != [] {
      SplitJoin(r, '/');
    }
  }

  /** Names that are already clean are left alone. */
  lemma CleanNameIsFixed(name: string)
    requires Clean(Split(name, '/'))
    ensures Normalized(name) == name
  {
    ResolveClean(Split(name, '/'), []);
    assert [] + Split(name, '/') == Split(name, '/');
    JoinSplit(name, '/');
  }

  lemma NormalizeIdempotent(name: string)
    ensures Normalized(Normalized(name)) == Normalized(name)
  {
    NormalizedIsClean(name);
    if Normalized(name) == "" {
      assert Split("", '/') == [""];
      assert Resolve([""], []) == Resolve([], []);
    } else {
      CleanNameIsFixed(Normalized(name));
    }
  }

  /** The exact fixed points: the empty name, and names made of clean segments only. */
  lemma NormalizeFixedPoints(name: string)
    ensures Normalized(name) == name <==> name == "" || Clean(Split(name, '/'))
  {
    if name == "" {
      assert Resolve([""], []) == Resolve([], []);
    } else if Clean(Split(name, '/')) {
      CleanNameIsFixed(name);
    } else if Normalized(name) == name {
      NormalizedIsClean(name);
    }
  }

  // ----- normal forms, one segment at a time

  lemma {:induction false} ResolveAppend(segments: seq<string>, last: string, stack: seq<string>)
    ensures Resolve(segments + [last], stack) == Resolve([last], Resolve(segments, stack))
    decreases |segments|
  {
    if segments == [] {
      assert [] + [last] == [last];
    } else {
      assert (segments + [last])[1..] == segments[1..] + [last];
      var s := segments[0];
      ResolveAppend(segments[1..], last,
                    if s == "." || s == "" then stack
                    else if s == ".." then (if stack == [] then [] else stack[..|stack| - 1])
                    else stack + [s]);
    }
  }

  lemma {:induction false} JoinMore(parts: seq<string>, last: string)
    requires parts != []
    ensures Join(parts + [last], '/') == Join(parts, '/') + "/" + last
    decreases |parts|
  {
    if |parts| == 1 {
      assert (parts + [last])[1..] == [last];
    } else {
      assert (parts + [last])[1..] == parts[1..] + [last];
      JoinMore(parts[1..], last);
      assert parts[0] + ['/'] + (Join(parts[1..], '/') + "/" + last)
          == parts[0] + ['/'] + Join(parts[1..], '/') + "/" + last;
    }
  }

  /** `parent` is what is left of a path without its last segment: nothing, if it has only one. */
  ghost predicate IsParent(parent: string, path: string) {
    if '/' !in path then parent == "" else exists last :: path == parent + "/" + last && '/' !in last
  }

  /** A name of one segment is its own normal form, unless the segment is empty or dots. */
  lemma NormalizedSegment(name: string)
    requires '/' !in name
    ensures Normalized(name) == if name == "" || name == "." || name == ".." then "" else name
  {
    SplitWhole(name, '/');
    assert [name][1..] == [] && [] + [name] == [name];
    assert Resolve([name], []) == if name == "" || name == "." || name == ".." then [] else [name];
  }

  /**
   What one more segment does: an empty one or `.` nothing, `..` takes the last segment of the normal form away, and
   any other is put behind it.
   */
  lemma NormalizedAppend(name: string, segment: string)
    requires '/' !in segment
    ensures var before, after := Normalized(name), Normalized(name + "/" + segment);
            if segment == "" || segment == "." then after == before
            else if segment == ".." then IsParent(after, before)
            else after == if before == "" then segment else before + "/" + segment
  {
    SplitLast(name, '/', segment);
    assert name + ['/'] + segment == name + "/" + segment;
    var r := Resolve(Split(name, '/'), []);
    ResolveAppend(Split(name, '/'), segment, []);
    SplitFree(name, '/');
    ResolveIsClean(Split(name, '/'), []);
    assert [segment][1..] == [];
    if segment == "" || segment == "." {
    } else if segment == ".." {
      if |r| > 1 {
        var front, last := r[..|r| - 1], r[|r| - 1];
        assert r == front + [last];
        JoinMore(front, last);
      }
    } else {
      if r == [] {
        assert [] + [segment] == [segment];
      } else {
        JoinMore(r, segment);
        JoinNonEmpty(r);
      }
    }
  }

  lemma JoinNonEmpty(parts: seq<string>)
    requires parts != [] && parts[0] != ""
    ensures Join(parts, '/') != ""
  {
  }

  /** So `./x` and `a/../x` are other spellings of `x`, and `a/x` is not. */
  lemma Detours(a: string, x: string)
    requires CleanSegment(a) && CleanSegment(x)
    ensures Normalized("." + "/" + x) == x && Normalized(a + "/" + ".." + "/" + x) == x
    ensures Normalized(a + "/" + x) == a + "/" + x != x
  {
    hide Normalized;
    NormalizedSegment(".");
    NormalizedSegment(a);
    NormalizedAppend(".", x);
    NormalizedAppend(a, "..");
    NormalizedAppend(a + "/" + "..", x);
    NormalizedAppend(a, x);
    assert |a + "/" + x| > |x|;
  }
}
