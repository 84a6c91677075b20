/** A node of the component forest: a name, the children by name, and a
    back-pointer to the parent (null for a root). */
module Components {
  import opened Wrappers

  class Component {
    /** The name never changes: there is no setter. */
    const name: string
    var subcomponents: map<string, Component>
    var parent: Component?

    /** A missing (null) child map leaves the node with no children; a given
        map is adopted as it is. */
    constructor (name: string, subcomponents: Option<map<string, Component>>, parent: Component?)
      ensures this.name == name && this.parent == parent
      ensures subcomponents.None? ==> this.subcomponents == map[]
      ensures subcomponents.Some? ==> this.subcomponents == subcomponents.value
    {
      this.name := name;
      this.parent := parent;
      this.subcomponents := map[];
      new;
      if subcomponents.Some? {
        this.subcomponents := subcomponents.value;
      }
    }

    /** Binds `name` to a new childless component whose parent is this one.
        A child already bound to `name` is replaced, with all of its subtree,
        and no error is raised. The new child is returned so that callers can
        name it; the Java method returns nothing. */
    method AddSubcomponent(name: string) returns (child: Component)
      modifies this`subcomponents
      ensures fresh(child)
      ensures child.name == name && child.parent == this && child.subcomponents == map[]
      ensures subcomponents == old(subcomponents)[name := child]
      ensures parent == old(parent)
    {
      child := new Component(name, None, this);
      subcomponents := subcomponents[name := child];
    }

    /** Replaces the parent and nothing else. */
    method SetParent(parent: Component?)
      modifies this`parent
      ensures this.parent == parent && subcomponents == old(subcomponents)
    {
      this.parent := parent;
    }
  }
}
