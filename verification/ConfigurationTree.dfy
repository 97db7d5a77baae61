/** The configuration tree: nodes with a tag, children in order and a map of values. */
module ConfigurationTree {
  import opened Text

  // ---------- The value of a tree ----------

  datatype Tree = Node(tag: string, children: seq<Tree>, values: map<string, string>) {
    function AddChild(child: Tree): Tree { this.(children := children + [child]) }

    function AddValue(key: string, value: string): Tree { this.(values := values[key := value]) }

    /** The node itself, then the nodes below it, in the order of their tag lines. */
    function Nodes(): seq<Tree> { [this] + NodesOf(children) }
  }

  function NodesOf(forest: seq<Tree>): seq<Tree> {
    if forest == [] then [] else forest[0].Nodes() + NodesOf(forest[1..])
  }

  function FirstWithTag(nodes: seq<Tree>, tag: string): Option<Tree> {
    if nodes == [] then None
    else if nodes[0].tag == tag then Some(nodes[0])
    else FirstWithTag(nodes[1..], tag)
  }

  lemma {:induction false} FirstOfTwo(first: seq<Tree>, second: seq<Tree>, tag: string)
    ensures FirstWithTag(first + second, tag) ==
            if FirstWithTag(first, tag).Some? then FirstWithTag(first, tag) else FirstWithTag(second, tag)
  {
    if first == [] {
      assert first + second == second;
    } else {
      assert (first + second)[1..] == first[1..] + second;
      FirstOfTwo(first[1..], second, tag);
    }
  }

  lemma FirstInTree(t: Tree, tag: string)
    ensures FirstWithTag(t.Nodes(), tag) ==
            if t.tag == tag then Some(t) else FirstWithTag(NodesOf(t.children), tag)
  {
    assert ([t] + NodesOf(t.children))[1..] == NodesOf(t.children);
  }

  lemma {:induction false} NodesOfLast(forest: seq<Tree>, t: Tree)
    ensures NodesOf(forest + [t]) == NodesOf(forest) + t.Nodes()
  {
    if forest == [] {
      assert forest + [t] == [t];
      assert NodesOf([t]) == t.Nodes() + NodesOf([]);
    } else {
      assert (forest + [t])[1..] == forest[1..] + [t];
      NodesOfLast(forest[1..], t);
      assert forest[0].Nodes() + (NodesOf(forest[1..]) + t.Nodes()) ==
             (forest[0].Nodes() + NodesOf(forest[1..])) + t.Nodes();
    }
  }

  lemma FirstInForest(forest: seq<Tree>, t: Tree, tag: string)
    ensures FirstWithTag(NodesOf(forest + [t]), tag) ==
            if FirstWithTag(NodesOf(forest), tag).Some? then FirstWithTag(NodesOf(forest), tag)
            else FirstWithTag(t.Nodes(), tag)
  {
    NodesOfLast(forest, t);
    FirstOfTwo(NodesOf(forest), t.Nodes(), tag);
  }

  lemma {:induction false} NodesOfTwo(first: seq<Tree>, second: seq<Tree>)
    ensures NodesOf(first + second) == NodesOf(first) + NodesOf(second)
  {
    if first == [] {
      assert first + second == second;
    } else {
      assert (first + second)[1..] == first[1..] + second;
      NodesOfTwo(first[1..], second);
      assert first[0].Nodes() + (NodesOf(first[1..]) + NodesOf(second)) ==
             (first[0].Nodes() + NodesOf(first[1..])) + NodesOf(second);
    }
  }

  /** If the first i children have no such node, child i decides or is as empty as they are. */
  lemma FirstInChildren(children: seq<Tree>, i: nat, tag: string)
    requires i < |children| && FirstWithTag(NodesOf(children[..i]), tag).None?
    ensures var inChild := FirstWithTag(children[i].Nodes(), tag);
            if inChild.Some? then FirstWithTag(NodesOf(children), tag) == inChild
            else FirstWithTag(NodesOf(children[..i + 1]), tag).None?
  {
    FirstInForest(children[..i], children[i], tag);
    assert children[..i + 1] == children[..i] + [children[i]];
    NodesOfTwo(children[..i + 1], children[i + 1..]);
    assert children[..i + 1] + children[i + 1..] == children;
    FirstOfTwo(NodesOf(children[..i + 1]), NodesOf(children[i + 1..]), tag);
  }

  // ---------- The object ----------

  class Configuration {
    var Tag: string
    var ChildConfigurations: seq<Configuration>
    var ConfigurationValues: map<string, string>
    var ParentConfiguration: Configuration?
    ghost var tree: Tree
    ghost var Repr: set<Configuration>

    ghost predicate IsChild(child: Configuration)
      reads this, child
    {
      child in Repr && child.Repr < Repr && this !in child.Repr && child.ParentConfiguration == this
    }

    /** The children form a tree below this node, point back to it and have the values that
        the tree lists. */
    ghost predicate Valid()
      reads this, Repr
      decreases Repr
    {
      && this in Repr
      && tree.tag == Tag && tree.values == ConfigurationValues
      && |tree.children| == |ChildConfigurations|
      && forall i :: 0 <= i < |ChildConfigurations| ==>
           && ChildConfigurations[i] in Repr && IsChild(ChildConfigurations[i])
           && ChildConfigurations[i].Valid()
           && ChildConfigurations[i].tree == tree.children[i]
    }

    ghost predicate Holds(t: Tree, parent: Configuration?)
      reads this, Repr
    {
      Valid() && tree == t && ParentConfiguration == parent
    }

    /** A node with a tag and a parent; the source sets them after an empty constructor. */
    constructor (tag: string, parent: Configuration?)
      ensures Holds(Node(tag, [], map[]), parent) && fresh(Repr)
    {
      Tag := tag;
      ChildConfigurations := [];
      ConfigurationValues := map[];
      ParentConfiguration := parent;
      tree := Node(tag, [], map[]);
      Repr := {this};
    }

    method AddChildConfiguration(childConfiguration: Configuration)
      requires Valid() && childConfiguration.Holds(childConfiguration.tree, this)
      requires this !in childConfiguration.Repr
      modifies this
      ensures Holds(old(tree).AddChild(childConfiguration.tree), old(ParentConfiguration))
      ensures Repr == old(Repr) + childConfiguration.Repr
      ensures ChildConfigurations == old(ChildConfigurations) + [childConfiguration]
    {
      ChildConfigurations := ChildConfigurations + [childConfiguration];
      Repr := Repr + childConfiguration.Repr;
      tree := tree.AddChild(childConfiguration.tree);
    }

    method AddConfigurationData(key: string, value: string)
      requires Valid()
      modifies this
      ensures Holds(old(tree).AddValue(key, value), old(ParentConfiguration)) && Repr == old(Repr)
      ensures ChildConfigurations == old(ChildConfigurations)
    {
      ConfigurationValues := ConfigurationValues[key := value];
      tree := tree.AddValue(key, value);
    }

    method GetConfigurationData(key: string) returns (found: bool, value: string)
      requires Valid()
      ensures found == (key in tree.values)
      ensures value == if found then tree.values[key] else ""
    {
      if key !in ConfigurationValues {
        return false, "";
      }
      value := ConfigurationValues[key];
      found := true;
    }

    /** Copies the fields of the first node with the tag, in the order of the tag lines of a
        file, into any object, also one of the tree. */
    method FindConfigurationByTag(tag: string, configuration: Configuration)
      returns (found: bool, ghost node: Configuration)
      requires Valid()
      modifies configuration
      ensures found == FirstWithTag(old(tree).Nodes(), tag).Some?
      ensures found ==>
                && node in old(Repr) && old(node.tree) == FirstWithTag(old(tree).Nodes(), tag).value
                && configuration.Tag == old(node.Tag)
                && configuration.ChildConfigurations == old(node.ChildConfigurations)
                && configuration.ConfigurationValues == old(node.ConfigurationValues)
                && configuration.ParentConfiguration == old(node.ParentConfiguration)
      ensures !found ==> unchanged(configuration)
      decreases Repr
    {
      node := this;
      FirstInTree(tree, tag);
      if Tag == tag {
        configuration.Tag, configuration.ChildConfigurations, configuration.ConfigurationValues,
          configuration.ParentConfiguration := Tag, ChildConfigurations, ConfigurationValues, ParentConfiguration;
        return true, this;
      }
      ghost var t := tree;
      for i := 0 to |ChildConfigurations|
        invariant unchanged(configuration) && Valid()
        invariant FirstWithTag(NodesOf(t.children[..i]), tag).None?
      {
        FirstInChildren(t.children, i, tag);
        found, node := ChildConfigurations[i].FindConfigurationByTag(tag, configuration);
        if found {
          return;
        }
      }
      assert t.children[..|t.children|] == t.children;
      found := false;
    }
  }
}
