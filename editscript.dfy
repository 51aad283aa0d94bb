/**
 * `EditScript` (astdiff/editscript/__init__.py): a tuple of operations whose `standalone`
 * maps every operation to its standalone copy.
 */
module EditScripts {
  import opened Base
  import opened Nodes
  import opened Ops

  /** Every operation of the script refers to nodes of the arena. */
  predicate ScriptInRange(nodes: seq<Node>, script: seq<Operation>)
  {
    forall k | 0 <= k < |script| :: OpInRange(nodes, script[k])
  }

  /** The arena after applying the operations of a script one after the other. */
  function ApplyAll(nodes: seq<Node>, script: seq<Operation>): (r: seq<Node>)
    requires Closed(nodes) && ScriptInRange(nodes, script)
    ensures Closed(r) && |r| == |nodes|
    decreases |script|
  {
    if script == [] then nodes
    else
      var next := Applied(nodes, script[0]);
      assert ScriptInRange(next, script[1..]) by {
        forall k | 0 <= k < |script| - 1 ensures OpInRange(next, script[1..][k]) {
          assert script[1..][k] == script[k + 1];
        }
      }
      ApplyAll(next, script[1..])
  }

  /** Applying a script and then one more operation is applying the longer script. */
  lemma {:induction false} ApplyAllSnoc(nodes: seq<Node>, script: seq<Operation>, op: Operation)
    requires Closed(nodes) && ScriptInRange(nodes, script) && OpInRange(nodes, op)
    ensures ScriptInRange(nodes, script + [op])
    ensures ApplyAll(nodes, script + [op]) == Applied(ApplyAll(nodes, script), op)
    decreases |script|
  {
    var longer := script + [op];
    assert forall k | 0 <= k < |longer| :: longer[k] == if k < |script| then script[k] else op;
    if script == [] {
      assert longer[1..] == [];
    } else {
      var next := Applied(nodes, script[0]);
      assert longer[1..] == script[1..] + [op];
      assert ScriptInRange(next, script[1..]) by {
        forall k | 0 <= k < |script| - 1 ensures OpInRange(next, script[1..][k]) {
          assert script[1..][k] == script[k + 1];
        }
      }
      ApplyAllSnoc(next, script[1..], op);
    }
  }

  /**
   * `EditScript.standalone`: the operations' standalone copies in the same order. The
   * generator expression stops at the first operation whose `standalone` fails, and so
   * does the whole script.
   */
  function StandaloneScript(nodes: seq<Node>, script: seq<Operation>): (r: Option<seq<StandaloneOperation>>)
    requires ScriptInRange(nodes, script)
    ensures r.Some? <==> forall k | 0 <= k < |script| :: StandaloneOf(nodes, script[k]).Some?
    ensures r.Some? ==> |r.value| == |script|
    ensures r.Some? ==> forall k | 0 <= k < |script| :: r.value[k] == StandaloneOf(nodes, script[k]).value
    decreases |script|
  {
    if script == [] then Some([])
    else
      match StandaloneOf(nodes, script[0])
      case None => None
      case Some(first) =>
        assert forall k | 0 <= k < |script| - 1 :: script[1..][k] == script[k + 1];
        match StandaloneScript(nodes, script[1..])
        case None => None
        case Some(rest) => Some([first] + rest)
  }

  /**
   * The standalone script keeps the kind of every operation, in order, and detaches every
   * node; it exists exactly when no insert or move lacks a parent.
   */
  lemma StandaloneKeepsKinds(nodes: seq<Node>, script: seq<Operation>)
    requires ScriptInRange(nodes, script)
    ensures StandaloneScript(nodes, script).Some? <==>
      forall k | 0 <= k < |script| :: !((script[k].Insert? || script[k].Move?) && script[k].parent.None?)
    ensures StandaloneScript(nodes, script).Some? ==>
      forall k | 0 <= k < |script| ::
        && SameKind(script[k], StandaloneScript(nodes, script).value[k])
        && Detached(StandaloneScript(nodes, script).value[k].node)
  {
    var r := StandaloneScript(nodes, script);
    if r.Some? {
      forall k | 0 <= k < |script|
        ensures SameKind(script[k], r.value[k]) && Detached(r.value[k].node)
      {
        assert r.value[k] == StandaloneOf(nodes, script[k]).value;
      }
    }
    forall k | 0 <= k < |script|
      ensures StandaloneOf(nodes, script[k]).Some? <==> !((script[k].Insert? || script[k].Move?) && script[k].parent.None?)
    {
    }
  }
}
