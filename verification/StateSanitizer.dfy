/**
 Stripping credentials from state before it is stored (`shared/stateSanitizer.js`).

 `lower` is `String.prototype.toLowerCase`; rewriting a proxy URL and the index keys that spreading a string or an array
 gives are parameters too.
 */
module StateSanitizer {
  import opened Wrappers
  import opened OrderedMap
  import opened JsonValue

  const SENSITIVE := {
    "password", "passwd", "secret", "token", "accesstoken", "refreshtoken", "clientsecret", "privatekey",
    "pullsecret", "pullsecretplaceholder", "mirrorregistrypullsecret", "operatorpullsecret", "rhpullsecret",
    "mirrorpullsecret", "sshprivatekey", "bmcpassword", "bmcusername", "vcenterpassword", "prismpassword",
    "registrypassword", "proxypassword", "auth", "auths", "accesskeyid", "secretaccesskey", "apikey"
  }

  type Lower = string -> string

  predicate Sensitive(lower: Lower, key: string) { lower(key) in SENSITIVE }

  /** `sanitizeCredentialFields` */
  function Sanitized(lower: Lower, v: Json): Json
    decreases v, 0
  {
    match v
    case Arr(items) => Arr(seq(|items|, i requires 0 <= i < |items| => Sanitized(lower, items[i])))
    case Obj(fields) => Obj(SanitizedFields(lower, fields))
    case _ => v
  }

  function SanitizedFields(lower: Lower, fields: Assoc<Json>): Assoc<Json>
    decreases fields
  {
    if fields == [] then []
    else
      var rest := SanitizedFields(lower, fields[1..]);
      if Sensitive(lower, fields[0].0) then rest
      else
        assert fields[0].1 < fields[0];
        [(fields[0].0, Sanitized(lower, fields[0].1))] + rest
  }

  // ----- nothing sensitive is left

  /** No sensitive key at any depth. */
  predicate Clean(lower: Lower, v: Json)
    decreases v, 0
  {
    match v
    case Arr(items) => forall i :: 0 <= i < |items| ==> Clean(lower, items[i])
    case Obj(fields) => CleanFields(lower, fields)
    case _ => true
  }

  predicate CleanFields(lower: Lower, fields: Assoc<Json>)
    decreases fields
  {
    fields == [] ||
    (assert fields[0].1 < fields[0];
     !Sensitive(lower, fields[0].0) && Clean(lower, fields[0].1) && CleanFields(lower, fields[1..]))
  }

  lemma {:induction false} SanitizedIsClean(lower: Lower, v: Json)
    ensures Clean(lower, Sanitized(lower, v))
    decreases v, 0
  {
    hide Sensitive;
    match v
    case Arr(items) =>
      forall i | 0 <= i < |items| ensures Clean(lower, Sanitized(lower, items[i])) {
        SanitizedIsClean(lower, items[i]);
      }
    case Obj(fields) => SanitizedFieldsAreClean(lower, fields);
    case _ =>
  }

  lemma {:induction false} SanitizedFieldsAreClean(lower: Lower, fields: Assoc<Json>)
    ensures CleanFields(lower, SanitizedFields(lower, fields))
    decreases fields
  {
    hide Sensitive;
    if fields != [] {
      SanitizedFieldsAreClean(lower, fields[1..]);
      if !Sensitive(lower, fields[0].0) {
        assert fields[0].1 < fields[0];
        SanitizedIsClean(lower, fields[0].1);
      }
    }
  }

  // ----- the result does not depend on what stands under sensitive keys

  /** Any change under sensitive keys: `change` replaces the value, or removes the field. */
  type Change = (string, Json) -> Option<Json>

  function Rewritten(lower: Lower, v: Json, change: Change): Json
    decreases v, 0
  {
    match v
    case Arr(items) => Arr(seq(|items|, i requires 0 <= i < |items| => Rewritten(lower, items[i], change)))
    case Obj(fields) => Obj(RewrittenFields(lower, fields, change))
    case _ => v
  }

  function RewrittenFields(lower: Lower, fields: Assoc<Json>, change: Change): Assoc<Json>
    decreases fields
  {
    if fields == [] then []
    else
      var rest := RewrittenFields(lower, fields[1..], change);
      if Sensitive(lower, fields[0].0) then
        match change(fields[0].0, fields[0].1)
        case None => rest
        case Some(w) => [(fields[0].0, w)] + rest
      else
        assert fields[0].1 < fields[0];
        [(fields[0].0, Rewritten(lower, fields[0].1, change))] + rest
  }

  /** Whatever is written under sensitive keys, at every depth, the sanitized tree is the same. */
  lemma {:induction false} SecretsDoNotMatter(lower: Lower, v: Json, change: Change)
    ensures Sanitized(lower, Rewritten(lower, v, change)) == Sanitized(lower, v)
    decreases v, 0
  {
    hide Sensitive;
    match v
    case Arr(items) =>
      forall i | 0 <= i < |items|
        ensures Sanitized(lower, Rewritten(lower, items[i], change)) == Sanitized(lower, items[i])
      {
        SecretsDoNotMatter(lower, items[i], change);
      }
    case Obj(fields) => SecretFieldsDoNotMatter(lower, fields, change);
    case _ =>
  }

  lemma {:induction false} SecretFieldsDoNotMatter(lower: Lower, fields: Assoc<Json>, change: Change)
    ensures SanitizedFields(lower, RewrittenFields(lower, fields, change)) == SanitizedFields(lower, fields)
    decreases fields
  {
    hide Sensitive;
    if fields != [] {
      SecretFieldsDoNotMatter(lower, fields[1..], change);
      var rest := RewrittenFields(lower, fields[1..], change);
      if !Sensitive(lower, fields[0].0) {
        assert fields[0].1 < fields[0];
        SecretsDoNotMatter(lower, fields[0].1, change);
        var head := [(fields[0].0, Rewritten(lower, fields[0].1, change))];
        assert (head + rest)[1..] == rest;
      } else if change(fields[0].0, fields[0].1).Some? {
        var head := [(fields[0].0, change(fields[0].0, fields[0].1).value)];
        assert (head + rest)[1..] == rest;
      }
    }
  }

  // ----- everything else is kept

  datatype Step = Key(name: string) | Index(i: nat)

  /** The value a path leads to. */
  function At(v: Json, path: seq<Step>): Option<Json>
    decreases |path|
  {
    if path == [] then Some(v)
    else
      match path[0]
      case Key(name) =>
        (match Prop(Some(v), name)
         case None => None
         case Some(w) => At(w, path[1..]))
      case Index(i) => if v.Arr? && i < |v.items| then At(v.items[i], path[1..]) else None
  }

  predicate Secret(lower: Lower, path: seq<Step>) {
    exists i :: 0 <= i < |path| && path[i].Key? && Sensitive(lower, path[i].name)
  }

  lemma {:induction false} SanitizedLookup(lower: Lower, fields: Assoc<Json>, key: string)
    ensures Lookup(SanitizedFields(lower, fields), key)
         == if Sensitive(lower, key) || !Has(fields, key) then None
            else Some(Sanitized(lower, Lookup(fields, key).value))
    decreases |fields|
  {
    hide Sensitive, Sanitized;
    if fields != [] {
      SanitizedLookup(lower, fields[1..], key);
    }
  }

  /** Path by path: nothing under a sensitive key, and the sanitized original everywhere else. */
  lemma {:induction false} PathView(lower: Lower, v: Json, path: seq<Step>)
    ensures At(Sanitized(lower, v), path)
         == if Secret(lower, path) || At(v, path).None? then None
            else Some(Sanitized(lower, At(v, path).value))
    decreases |path|
  {
    hide Sensitive;
    if path != [] {
      match path[0]
      case Key(name) =>
        if v.Obj? {
          SanitizedLookup(lower, v.fields, name);
          if Has(v.fields, name) {
            PathView(lower, Lookup(v.fields, name).value, path[1..]);
          }
        }
      case Index(i) =>
        if v.Arr? && i < |v.items| {
          PathView(lower, v.items[i], path[1..]);
        }
    }
  }

  /** A tree is left as it is exactly when it is clean; so a second pass changes nothing. */
  lemma {:induction false} FixedIffClean(lower: Lower, v: Json)
    ensures Sanitized(lower, v) == v <==> Clean(lower, v)
    decreases v
  {
    SanitizedIsClean(lower, v);
    if Clean(lower, v) {
      CleanIsFixed(lower, v);
    }
  }

  lemma {:induction false} CleanIsFixed(lower: Lower, v: Json)
    requires Clean(lower, v)
    ensures Sanitized(lower, v) == v
    decreases v, 0
  {
    hide Sensitive;
    match v
    case Arr(items) =>
      forall i | 0 <= i < |items| ensures Sanitized(lower, items[i]) == items[i] {
        CleanIsFixed(lower, items[i]);
      }
    case Obj(fields) => CleanFieldsAreFixed(lower, fields);
    case _ =>
  }

  lemma {:induction false} CleanFieldsAreFixed(lower: Lower, fields: Assoc<Json>)
    requires CleanFields(lower, fields)
    ensures SanitizedFields(lower, fields) == fields
    decreases fields
  {
    hide Sensitive;
    if fields != [] {
      CleanFieldsAreFixed(lower, fields[1..]);
      assert fields[0].1 < fields[0];
      CleanIsFixed(lower, fields[0].1);
      assert fields == [fields[0]] + fields[1..];
    }
  }

  lemma SanitizeTwice(lower: Lower, v: Json)
    ensures Sanitized(lower, Sanitized(lower, v)) == Sanitized(lower, v)
  {
    SanitizedIsClean(lower, v);
    CleanIsFixed(lower, Sanitized(lower, v));
  }

  // ----- sanitizeStateForPersistence

  /**
   Where the persistence boundary acts: down a key, over every item of a list, into a spread copy of a list entry or of
   a truthy value, and then either dropping a key or rewriting the proxy URL found there.
   */
  datatype Hop = Down(name: string) | Each | Entry | Copy | Drop(name: string) | Rewrite

  type Rewriter = Json -> string

  const ERASURES := [
    [Down("blueprint"), Drop("blueprintPullSecretEphemeral")],
    [Down("credentials"), Drop("pullSecretPlaceholder")],
    [Down("credentials"), Drop("mirrorRegistryPullSecret")],
    [Down("credentials"), Drop("operatorPullSecret")],
    [Down("credentials"), Drop("sshPrivateKey")],
    [Down("platformConfig"), Down("vsphere"), Drop("username")],
    [Down("platformConfig"), Down("vsphere"), Drop("password")],
    [Down("platformConfig"), Down("vsphere"), Down("vcenters"), Each, Entry, Drop("user")],
    [Down("platformConfig"), Down("vsphere"), Down("vcenters"), Each, Entry, Drop("username")],
    [Down("platformConfig"), Down("vsphere"), Down("vcenters"), Each, Entry, Drop("password")],
    [Down("platformConfig"), Down("nutanix"), Drop("username")],
    [Down("platformConfig"), Down("nutanix"), Drop("password")],
    [Down("platformConfig"), Down("nutanix"), Drop("prismUsername")],
    [Down("platformConfig"), Down("nutanix"), Drop("prismPassword")],
    [Down("platformConfig"), Down("aws"), Drop("accessKeyId")],
    [Down("platformConfig"), Down("aws"), Drop("secretAccessKey")],
    [Down("platformConfig"), Down("azure"), Drop("clientSecret")],
    [Down("platformConfig"), Down("ibmcloud"), Drop("apiKey")],
    [Down("hostInventory"), Down("nodes"), Each, Entry, Down("bmc"), Copy, Drop("username")],
    [Down("hostInventory"), Down("nodes"), Each, Entry, Down("bmc"), Copy, Drop("password")],
    [Down("hostInventory"), Down("nodes"), Each, Entry, Drop("bmcUsername")],
    [Down("hostInventory"), Down("nodes"), Each, Entry, Drop("bmcPassword")],
    [Down("globalStrategy"), Down("proxies"), Down("httpProxy"), Rewrite],
    [Down("globalStrategy"), Down("proxies"), Down("httpsProxy"), Rewrite],
    [Down("mirrorRegistry"), Drop("username")],
    [Down("mirrorRegistry"), Drop("password")],
    [Down("mirrorRegistry"), Drop("auth")],
    [Down("mirrorRegistry"), Drop("auths")]
  ]

  function Without(fields: Assoc<Json>, key: string): Assoc<Json> {
    if fields == [] then []
    else if fields[0].0 == key then Without(fields[1..], key)
    else [fields[0]] + Without(fields[1..], key)
  }

  /** `{ ...v }` */
  function Spread(v: Json): Assoc<Json> {
    if v.Obj? then v.fields else []
  }

  function Updated(rewrite: Rewriter, v: Json, route: seq<Hop>): Json
    decreases |route|
  {
    if route == [] then v
    else
      var rest := route[1..];
      match route[0]
      case Down(name) =>
        if v.Obj? && Has(v.fields, name)
        then Obj(Put(v.fields, name, Updated(rewrite, Lookup(v.fields, name).value, rest)))
        else v
      case Each =>
        if v.Arr?
        then Arr(seq(|v.items|, i requires 0 <= i < |v.items| => Updated(rewrite, v.items[i], rest)))
        else v
      case Entry => Updated(rewrite, Obj(Spread(v)), rest)
      case Copy => if Truthy(Some(v)) then Updated(rewrite, Obj(Spread(v)), rest) else v
      case Drop(name) => if v.Obj? then Obj(Without(v.fields, name)) else v
      case Rewrite => if Truthy(Some(v)) then Str(rewrite(v)) else v
  }

  function UpdatedAll(rewrite: Rewriter, v: Json, routes: seq<seq<Hop>>): Json {
    if routes == [] then v
    else Updated(rewrite, UpdatedAll(rewrite, v, routes[..|routes| - 1]), routes[|routes| - 1])
  }

  /** A truthy value that `in` throws on. */
  predicate NotAnObject(v: Option<Json>) {
    Truthy(v) && !v.value.Obj? && !v.value.Arr?
  }

  /** What is stored for a state; `None` where the original throws. */
  function Persisted(lower: Lower, rewrite: Rewriter, state: Json): Option<Json> {
    if !state.Obj? && !state.Arr? then Some(state)
    else if NotAnObject(Prop(Some(state), "blueprint")) || NotAnObject(Prop(Some(state), "credentials")) then None
    else Some(Sanitized(lower, UpdatedAll(rewrite, state, ERASURES)))
  }

  /** What becomes of the value a path leads to: it goes, or what is left of the route is done to it. */
  datatype Fate = Gone | Becomes(rest: seq<Hop>)

  /** Walking the route and the path together; where they part, nothing is left to do. */
  function FateOf(route: seq<Hop>, path: seq<Step>): Fate
    decreases |route|
  {
    if route == [] || path == [] then Becomes(route)
    else
      match route[0]
      case Down(name) => if path[0] == Key(name) then FateOf(route[1..], path[1..]) else Becomes([])
      case Each => if path[0].Index? then FateOf(route[1..], path[1..]) else Becomes([])
      case Entry => if path[0].Key? then FateOf(route[1..], path) else Gone
      case Copy => if path[0].Key? then FateOf(route[1..], path) else Gone
      case Drop(name) => if path[0] == Key(name) then Gone else Becomes([])
      case Rewrite => Gone
  }

  /** What is left of every route for the value at a path; `None` when some route removes it. */
  function LeftOf(routes: seq<seq<Hop>>, path: seq<Step>): Option<seq<seq<Hop>>> {
    if routes == [] then Some([])
    else
      var n := |routes| - 1;
      match (LeftOf(routes[..n], path), FateOf(routes[n], path))
      case (Some(before), Becomes(rest)) => Some(before + [rest])
      case _ => None
  }

  lemma {:induction false} WithoutLookup(fields: Assoc<Json>, key: string, other: string)
    ensures Lookup(Without(fields, key), other) == if other == key then None else Lookup(fields, other)
  {
    if fields != [] {
      WithoutLookup(fields[1..], key, other);
    }
  }

  /** One route, path by path: the value there goes, or has the rest of the route done to it. */
  lemma {:induction false} UpdatedAt(rewrite: Rewriter, v: Json, route: seq<Hop>, path: seq<Step>)
    ensures At(Updated(rewrite, v, route), path)
         == match (FateOf(route, path), At(v, path)) {
              case (Becomes(rest), Some(w)) => Some(Updated(rewrite, w, rest))
              case _ => None
            }
    decreases |route|
  {
    hide Truthy;
    if route != [] && path != [] {
      match route[0]
      case Down(name) =>
        if v.Obj? && Has(v.fields, name) && path[0].Key? {
          var below := Updated(rewrite, Lookup(v.fields, name).value, route[1..]);
          LookupPut(v.fields, name, below, path[0].name);
          if path[0].name == name {
            UpdatedAt(rewrite, Lookup(v.fields, name).value, route[1..], path[1..]);
          }
        }
      case Each =>
        if v.Arr? && path[0].Index? && path[0].i < |v.items| {
          UpdatedAt(rewrite, v.items[path[0].i], route[1..], path[1..]);
        }
      case Entry => UpdatedObject(rewrite, v, route, path);
      case Copy =>
        if Truthy(Some(v)) {
          UpdatedObject(rewrite, v, route, path);
        } else {
          FalsyIsLeaf(v);
        }
      case Drop(name) =>
        if v.Obj? && path[0].Key? {
          WithoutLookup(v.fields, name, path[0].name);
        }
      case Rewrite =>
        if !Truthy(Some(v)) { FalsyIsLeaf(v); }
    }
  }

  lemma FalsyIsLeaf(v: Json)
    ensures Truthy(Some(v)) || (!v.Obj? && !v.Arr?)
  {
  }

  /** Into the spread copy of a value. */
  lemma {:induction false} UpdatedObject(rewrite: Rewriter, v: Json, route: seq<Hop>, path: seq<Step>)
    requires route != [] && path != []
    ensures At(Updated(rewrite, Obj(Spread(v)), route[1..]), path)
         == match (if path[0].Key? then FateOf(route[1..], path) else Gone, At(v, path)) {
              case (Becomes(rest), Some(w)) => Some(Updated(rewrite, w, rest))
              case _ => None
            }
    decreases |route|, 0
  {
    hide Truthy;
    UpdatedAt(rewrite, Obj(Spread(v)), route[1..], path);
  }

  /** All routes in order, path by path. */
  lemma {:induction false} UpdatedAllAt(rewrite: Rewriter, v: Json, routes: seq<seq<Hop>>, path: seq<Step>)
    ensures At(UpdatedAll(rewrite, v, routes), path)
         == match (LeftOf(routes, path), At(v, path)) {
              case (Some(rests), Some(w)) => Some(UpdatedAll(rewrite, w, rests))
              case _ => None
            }
    decreases |routes|
  {
    hide Updated, FateOf;
    if routes != [] {
      var n := |routes| - 1;
      UpdatedAllAt(rewrite, v, routes[..n], path);
      UpdatedAt(rewrite, UpdatedAll(rewrite, v, routes[..n]), routes[n], path);
      if LeftOf(routes[..n], path).Some? && FateOf(routes[n], path).Becomes? {
        var before, rest := LeftOf(routes[..n], path).value, FateOf(routes[n], path).rest;
        assert (before + [rest])[..|before + [rest]| - 1] == before;
      }
    }
  }

  /** Routes that start down a key do nothing to a value that is not an object. */
  lemma {:induction false} LeafUpdated(rewrite: Rewriter, v: Json, routes: seq<seq<Hop>>)
    requires !v.Obj? && forall i :: 0 <= i < |routes| ==> routes[i] != [] && routes[i][0].Down?
    ensures UpdatedAll(rewrite, v, routes) == v
    decreases |routes|
  {
    if routes != [] {
      LeafUpdated(rewrite, v, routes[..|routes| - 1]);
    }
  }

  /**
   What is stored, for every path: nothing under a sensitive key or where a listed deletion leads, and otherwise the
   value with the rest of every listed route done to it, sanitized. Off the routes that is the sanitized original.
   */
  lemma PersistedView(lower: Lower, rewrite: Rewriter, state: Json, path: seq<Step>)
    requires Persisted(lower, rewrite, state).Some?
    ensures Clean(lower, Persisted(lower, rewrite, state).value)
    ensures At(Persisted(lower, rewrite, state).value, path)
         == match (LeftOf(ERASURES, path), At(state, path)) {
              case (Some(rests), Some(w)) =>
                if Secret(lower, path) then None else Some(Sanitized(lower, UpdatedAll(rewrite, w, rests)))
              case _ => None
            }
  {
    hide FateOf, LeftOf, Secret, Updated, UpdatedAll, At, Sanitized;
    var cut := UpdatedAll(rewrite, state, ERASURES);
    if !state.Obj? && !state.Arr? {
      assert forall i :: 0 <= i < |ERASURES| ==> ERASURES[i] != [] && ERASURES[i][0].Down?;
      LeafUpdated(rewrite, state, ERASURES);
      LeafSanitized(lower, state);
    }
    SanitizedIsClean(lower, cut);
    PathView(lower, cut, path);
    UpdatedAllAt(rewrite, state, ERASURES, path);
  }

  lemma LeafSanitized(lower: Lower, v: Json)
    requires !v.Obj? && !v.Arr?
    ensures Sanitized(lower, v) == v
  {
  }

  /** A value no route reaches, or goes past, is the sanitized original. */
  lemma {:induction false} OffRoutes(rewrite: Rewriter, v: Json, routes: seq<seq<Hop>>, path: seq<Step>)
    requires forall i :: 0 <= i < |routes| ==> FateOf(routes[i], path) == Becomes([])
    ensures LeftOf(routes, path).Some? && UpdatedAll(rewrite, v, LeftOf(routes, path).value) == v
    decreases |routes|
  {
    hide FateOf;
    if routes != [] {
      var n := |routes| - 1;
      OffRoutes(rewrite, v, routes[..n], path);
      var before := LeftOf(routes[..n], path).value;
      assert (before + [[]])[..|before|] == before;
    }
  }

  /** Where a proxy URL stood, its rewritten form stands. */
  lemma ProxyRewritten(lower: Lower, rewrite: Rewriter, state: Json, name: string)
    requires Persisted(lower, rewrite, state).Some? && (name == "httpProxy" || name == "httpsProxy")
    requires var path := [Key("globalStrategy"), Key("proxies"), Key(name)];
             !Secret(lower, path) && At(state, path).Some? && Truthy(At(state, path))
    ensures var path := [Key("globalStrategy"), Key("proxies"), Key(name)];
            At(Persisted(lower, rewrite, state).value, path) == Some(Str(rewrite(At(state, path).value)))
  {
    hide Secret, UpdatedAll, At, Sanitized, Persisted, Truthy, FateOf;
    var path := [Key("globalStrategy"), Key("proxies"), Key(name)];
    var w := At(state, path).value;
    PersistedView(lower, rewrite, state, path);
    ProxyFates(name);
    var at := if name == "httpProxy" then 22 else 23;
    OneRewrite(rewrite, w, ERASURES, path, at);
    LeafSanitized(lower, Str(rewrite(w)));
  }

  lemma ProxyFates(name: string)
    requires name == "httpProxy" || name == "httpsProxy"
    ensures var path := [Key("globalStrategy"), Key("proxies"), Key(name)];
            forall i :: 0 <= i < |ERASURES| ==>
              FateOf(ERASURES[i], path)
              == Becomes(if i == (if name == "httpProxy" then 22 else 23) then [Rewrite] else [])
  {
  }

  lemma RestDone(rewrite: Rewriter, v: Json)
    ensures Updated(rewrite, v, []) == v
    ensures Updated(rewrite, Str(rewrite(v)), []) == Str(rewrite(v))
    ensures Truthy(Some(v)) ==> Updated(rewrite, v, [Rewrite]) == Str(rewrite(v))
  {
  }

  /** When all routes but one leave a value alone, that one's rest is done to it. */
  lemma {:induction false} OneRewrite(rewrite: Rewriter, v: Json, routes: seq<seq<Hop>>, path: seq<Step>, at: nat)
    requires at < |routes| && Truthy(Some(v))
    requires forall i :: 0 <= i < |routes| ==> FateOf(routes[i], path) == Becomes(if i == at then [Rewrite] else [])
    ensures LeftOf(routes, path).Some? && UpdatedAll(rewrite, v, LeftOf(routes, path).value) == Str(rewrite(v))
    decreases |routes|
  {
    RestDone(rewrite, v);
    hide FateOf, Truthy, Updated;
    var n := |routes| - 1;
    if at == n {
      OffRoutes(rewrite, v, routes[..n], path);
    } else {
      OneRewrite(rewrite, v, routes[..n], path, at);
    }
    var before := LeftOf(routes[..n], path).value;
    var rest: seq<Hop> := if at == n then [Rewrite] else [];
    assert (before + [rest])[..|before|] == before;
  }

  // ----- by name

  /** Some key on the path is, up to case, one of the words for a credential. */
  ghost predicate NamesCredential(lower: Lower, path: seq<Step>) {
    exists i :: 0 <= i < |path| && path[i].Key? && CredentialWord(lower(path[i].name))
  }

  predicate CredentialWord(word: string) {
    || word in ["password", "passwd", "bmcpassword", "vcenterpassword", "prismpassword", "registrypassword",
                "proxypassword"]
    || word in ["secret", "clientsecret", "pullsecret", "mirrorregistrypullsecret", "operatorpullsecret",
                "rhpullsecret", "mirrorpullsecret", "pullsecretplaceholder"]
    || word in ["token", "accesstoken", "refreshtoken", "privatekey", "sshprivatekey", "accesskeyid",
                "secretaccesskey", "apikey"]
    || word in ["auth", "auths", "bmcusername"]
  }

  lemma WordsExact(lower: Lower, key: string)
    ensures Sensitive(lower, key) <==> CredentialWord(lower(key))
  {
  }

  /** Sanitizing removes what stands under such a key, at any depth, and nothing else. */
  lemma SanitizedByName(lower: Lower, v: Json, path: seq<Step>)
    ensures At(Sanitized(lower, v), path)
         == if NamesCredential(lower, path) || At(v, path).None? then None
            else Some(Sanitized(lower, At(v, path).value))
  {
    hide Sensitive, CredentialWord, At, Sanitized;
    PathView(lower, v, path);
    forall i | 0 <= i < |path| && path[i].Key?
      ensures Sensitive(lower, path[i].name) <==> CredentialWord(lower(path[i].name))
    {
      WordsExact(lower, path[i].name);
    }
  }

  /** Names cleared in an object of the state, and in an object of its platform configuration. */
  predicate ClearedIn(section: string, name: string) {
    || (section == "blueprint" && name == "blueprintPullSecretEphemeral")
    || (section == "credentials" &&
        name in ["pullSecretPlaceholder", "mirrorRegistryPullSecret", "operatorPullSecret", "sshPrivateKey"])
    || (section == "mirrorRegistry" && name in ["username", "password", "auth", "auths"])
  }

  predicate ClearedOf(platform: string, name: string) {
    || (platform == "vsphere" && name in ["username", "password"])
    || (platform == "nutanix" && name in ["username", "password", "prismUsername", "prismPassword"])
    || (platform == "aws" && name in ["accessKeyId", "secretAccessKey"])
    || (platform == "azure" && name == "clientSecret") || (platform == "ibmcloud" && name == "apiKey")
  }

  /** The places that are cleared before that, whatever their names. */
  ghost predicate Cleared(path: seq<Step>) {
    || (exists section, n :: ClearedIn(section, n) && path == [Key(section), Key(n)])
    || (exists platform, n :: ClearedOf(platform, n) && path == [Key("platformConfig"), Key(platform), Key(n)])
    || (exists n <- ["user", "username", "password"], i ::
          path == [Key("platformConfig"), Key("vsphere"), Key("vcenters"), Index(i), Key(n)])
    || (exists n <- ["username", "password"], i ::
          path == [Key("hostInventory"), Key("nodes"), Index(i), Key("bmc"), Key(n)])
    || (exists n <- ["bmcUsername", "bmcPassword"], i ::
          path == [Key("hostInventory"), Key("nodes"), Index(i), Key(n)])
  }

  lemma {:induction false} GoneIsGone(routes: seq<seq<Hop>>, k: nat, path: seq<Step>)
    requires k < |routes| && FateOf(routes[k], path) == Gone
    ensures LeftOf(routes, path) == None
    decreases |routes|
  {
    hide FateOf;
    if k < |routes| - 1 {
      GoneIsGone(routes[..|routes| - 1], k, path);
    }
  }

  lemma TwoDown(a: string, b: string)
    ensures FateOf([Down(a), Drop(b)], [Key(a), Key(b)]) == Gone
  {
    assert [Down(a), Drop(b)][1..] == [Drop(b)] && [Key(a), Key(b)][1..] == [Key(b)];
  }

  lemma ThreeDown(a: string, b: string, c: string)
    ensures FateOf([Down(a), Down(b), Drop(c)], [Key(a), Key(b), Key(c)]) == Gone
  {
    TwoDown(b, c);
    assert [Down(a), Down(b), Drop(c)][1..] == [Down(b), Drop(c)];
    assert [Key(a), Key(b), Key(c)][1..] == [Key(b), Key(c)];
  }

  lemma DropInEntry(i: nat, n: string)
    ensures FateOf([Each, Entry, Drop(n)], [Index(i), Key(n)]) == Gone
  {
    assert [Each, Entry, Drop(n)][1..] == [Entry, Drop(n)] && [Entry, Drop(n)][1..] == [Drop(n)];
    assert [Index(i), Key(n)][1..] == [Key(n)];
    assert FateOf([Entry, Drop(n)], [Key(n)]) == Gone;
  }

  lemma DropInCopy(i: nat, c: string, n: string)
    ensures FateOf([Each, Entry, Down(c), Copy, Drop(n)], [Index(i), Key(c), Key(n)]) == Gone
  {
    var route := [Each, Entry, Down(c), Copy, Drop(n)];
    assert route[1..] == [Entry, Down(c), Copy, Drop(n)] && route[1..][1..] == [Down(c), Copy, Drop(n)];
    assert route[1..][1..][1..] == [Copy, Drop(n)] && [Copy, Drop(n)][1..] == [Drop(n)];
    assert [Index(i), Key(c), Key(n)][1..] == [Key(c), Key(n)] && [Key(c), Key(n)][1..] == [Key(n)];
    assert FateOf([Copy, Drop(n)], [Key(n)]) == Gone;
    assert FateOf([Down(c), Copy, Drop(n)], [Key(c), Key(n)]) == Gone;
  }

  lemma FirstDown(a: string, route: seq<Hop>, path: seq<Step>)
    ensures FateOf([Down(a)] + route, [Key(a)] + path) == FateOf(route, path)
  {
    assert ([Down(a)] + route)[1..] == route && ([Key(a)] + path)[1..] == path;
  }

  lemma VcenterRoute(i: nat, n: string) returns (k: nat)
    requires n in ["user", "username", "password"]
    ensures k < |ERASURES|
    ensures FateOf(ERASURES[k], [Key("platformConfig"), Key("vsphere"), Key("vcenters"), Index(i), Key(n)]) == Gone
  {
    hide FateOf;
    DropInEntry(i, n);
    k := if n == "user" then 7 else if n == "username" then 8 else 9;
    var route, end: seq<Step> := [Each, Entry, Drop(n)], [Index(i), Key(n)];
    FirstDown("vcenters", route, end);
    FirstDown("vsphere", [Down("vcenters")] + route, [Key("vcenters")] + end);
    FirstDown("platformConfig", [Down("vsphere")] + ([Down("vcenters")] + route),
              [Key("vsphere")] + ([Key("vcenters")] + end));
    assert ERASURES[k] == [Down("platformConfig")] + ([Down("vsphere")] + ([Down("vcenters")] + route));
    assert [Key("platformConfig"), Key("vsphere"), Key("vcenters"), Index(i), Key(n)]
        == [Key("platformConfig")] + ([Key("vsphere")] + ([Key("vcenters")] + end));
  }

  lemma NodeRoute(i: nat, n: string) returns (k: nat)
    requires n in ["bmcUsername", "bmcPassword"]
    ensures k < |ERASURES| && FateOf(ERASURES[k], [Key("hostInventory"), Key("nodes"), Index(i), Key(n)]) == Gone
  {
    hide FateOf;
    DropInEntry(i, n);
    k := if n == "bmcUsername" then 20 else 21;
    var route, end: seq<Step> := [Each, Entry, Drop(n)], [Index(i), Key(n)];
    FirstDown("nodes", route, end);
    FirstDown("hostInventory", [Down("nodes")] + route, [Key("nodes")] + end);
    assert ERASURES[k] == [Down("hostInventory")] + ([Down("nodes")] + route);
    assert [Key("hostInventory"), Key("nodes"), Index(i), Key(n)] == [Key("hostInventory")] + ([Key("nodes")] + end);
  }

  lemma BmcRoute(i: nat, n: string) returns (k: nat)
    requires n in ["username", "password"]
    ensures k < |ERASURES|
    ensures FateOf(ERASURES[k], [Key("hostInventory"), Key("nodes"), Index(i), Key("bmc"), Key(n)]) == Gone
  {
    hide FateOf;
    DropInCopy(i, "bmc", n);
    k := if n == "username" then 18 else 19;
    var route, end: seq<Step> := [Each, Entry, Down("bmc"), Copy, Drop(n)], [Index(i), Key("bmc"), Key(n)];
    FirstDown("nodes", route, end);
    FirstDown("hostInventory", [Down("nodes")] + route, [Key("nodes")] + end);
    assert ERASURES[k] == [Down("hostInventory")] + ([Down("nodes")] + route);
    assert [Key("hostInventory"), Key("nodes"), Index(i), Key("bmc"), Key(n)]
        == [Key("hostInventory")] + ([Key("nodes")] + end);
  }

  lemma ObjectRoute(a: string, n: string) returns (k: nat)
    requires ClearedIn(a, n)
    ensures k < |ERASURES| && FateOf(ERASURES[k], [Key(a), Key(n)]) == Gone
  {
    hide FateOf;
    TwoDown(a, n);
    k := if a == "blueprint" then 0
         else if a == "credentials" then
           if n == "pullSecretPlaceholder" then 1 else if n == "mirrorRegistryPullSecret" then 2
           else if n == "operatorPullSecret" then 3 else 4
         else if n == "username" then 24 else if n == "password" then 25 else if n == "auth" then 26 else 27;
    assert ERASURES[k] == [Down(a), Drop(n)];
  }

  /** Where the platforms stand in the list. */
  lemma PlatformEntries(b: string, n: string, k: nat)
    requires (k, b, n) in [(5, "vsphere", "username"), (6, "vsphere", "password"), (10, "nutanix", "username"),
                           (11, "nutanix", "password"), (12, "nutanix", "prismUsername"),
                           (13, "nutanix", "prismPassword"), (14, "aws", "accessKeyId"),
                           (15, "aws", "secretAccessKey"), (16, "azure", "clientSecret"), (17, "ibmcloud", "apiKey")]
    ensures k < |ERASURES| && ERASURES[k] == [Down("platformConfig"), Down(b), Drop(n)]
  {
  }

  lemma PlatformRoute(b: string, n: string) returns (k: nat)
    requires ClearedOf(b, n)
    ensures k < |ERASURES| && FateOf(ERASURES[k], [Key("platformConfig"), Key(b), Key(n)]) == Gone
  {
    ThreeDown("platformConfig", b, n);
    hide FateOf;
    k := if b == "vsphere" then if n == "username" then 5 else 6
         else if b == "nutanix" then
           if n == "username" then 10 else if n == "password" then 11 else if n == "prismUsername" then 12 else 13
         else if b == "aws" then if n == "accessKeyId" then 14 else 15
         else if b == "azure" then 16 else 17;
    PlatformEntries(b, n, k);
  }

  lemma ClearedRoute(path: seq<Step>) returns (k: nat)
    requires Cleared(path)
    ensures k < |ERASURES| && FateOf(ERASURES[k], path) == Gone
  {
    hide FateOf, ClearedIn, ClearedOf;
    if section, n :| ClearedIn(section, n) && path == [Key(section), Key(n)] {
      k := ObjectRoute(section, n);
    } else if platform, n :| ClearedOf(platform, n) && path == [Key("platformConfig"), Key(platform), Key(n)] {
      k := PlatformRoute(platform, n);
    } else if i, n :| n in ["user", "username", "password"] &&
                      path == [Key("platformConfig"), Key("vsphere"), Key("vcenters"), Index(i), Key(n)] {
      k := VcenterRoute(i, n);
    } else if i, n :| n in ["username", "password"] &&
                      path == [Key("hostInventory"), Key("nodes"), Index(i), Key("bmc"), Key(n)] {
      k := BmcRoute(i, n);
    } else {
      var n, i :| n in ["bmcUsername", "bmcPassword"] &&
                  path == [Key("hostInventory"), Key("nodes"), Index(i), Key(n)];
      k := NodeRoute(i, n);
    }
  }

  /** Nothing stored is at such a place. */
  lemma ClearedIsGone(lower: Lower, rewrite: Rewriter, state: Json, path: seq<Step>)
    requires Persisted(lower, rewrite, state).Some? && Cleared(path)
    ensures At(Persisted(lower, rewrite, state).value, path) == None
  {
    hide FateOf, LeftOf, Persisted, At, Cleared;
    PersistedView(lower, rewrite, state, path);
    var k := ClearedRoute(path);
    GoneIsGone(ERASURES, k, path);
  }

  /** A state is refused only for a blueprint or credentials that are a truthy text, number or flag. */
  lemma PersistedWhen(lower: Lower, rewrite: Rewriter, state: Json)
    ensures Persisted(lower, rewrite, state).None?
       <==> exists key <- ["blueprint", "credentials"], w ::
              && Prop(Some(state), key) == Some(w) && Truthy(Some(w)) && !w.Obj? && !w.Arr?
  {
    hide Updated, UpdatedAll, Sanitized, Truthy;
    forall key: string ensures NotAnObject(Prop(Some(state), key))
      <==> exists w :: Prop(Some(state), key) == Some(w) && Truthy(Some(w)) && !w.Obj? && !w.Arr?
    {
      hide Lookup;
      FalsyNone();
    }
  }

  lemma FalsyNone()
    ensures !Truthy(None)
  {
  }
}
