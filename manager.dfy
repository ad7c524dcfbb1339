/**
 * The sync target registry: targets are filed under their names, a later registration under a
 * name replaces the earlier one, and a lookup reports whether the name is registered.
 */
module SyncManager {
  import opened Wrappers

  /** A sync target as the registry sees it: the name it reports and which target it is. */
  datatype Target = Target(name: string, instance: int)

  /** The registry after registering t: t under its name, every other name as it was. */
  function Registered(targets: map<string, Target>, t: Target): (r: map<string, Target>)
    ensures t.name in r && r[t.name] == t
    ensures forall n | n != t.name :: (n in r <==> n in targets) && (n in targets ==> r[n] == targets[n])
  {
    targets[t.name := t]
  }

  /** What a lookup of name finds. */
  function Lookup(targets: map<string, Target>, name: string): (r: Option<Target>)
    ensures r.Some? <==> name in targets
    ensures r.Some? ==> r.value == targets[name] && r.value in targets.Values
  {
    if name in targets then Some(targets[name]) else None
  }

  /** A registered target is found under its name, and a later target of the same name replaces it. */
  lemma RegisterThenGet(targets: map<string, Target>, t: Target, u: Target, name: string)
    ensures Lookup(Registered(targets, t), t.name) == Some(t)
    ensures name != t.name ==> Lookup(Registered(targets, t), name) == Lookup(targets, name)
    ensures u.name == t.name ==> Registered(Registered(targets, t), u) == Registered(targets, u)
  {
  }

  class Manager {
    var targets: map<string, Target>

    /** NewManager: no target registered. */
    constructor()
      ensures targets == map[]
    {
      targets := map[];
    }

    /** RegisterTarget: t is filed under its name, replacing any target of that name. */
    method RegisterTarget(t: Target)
      modifies this
      ensures targets == Registered(old(targets), t)
    {
      targets := targets[t.name := t];
    }

    /** GetTarget: the target registered under name, or none. */
    method GetTarget(name: string) returns (r: Option<Target>)
      ensures r == Lookup(targets, name)
    {
      if name in targets {
        return Some(targets[name]);
      }
      return None;
    }
  }
}
