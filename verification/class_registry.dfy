/**
 * `src/utils/classregistry.js`: the process-wide table from a goog.module
 * name to the class declaration created for it. It lives for the whole run
 * and is never cleared, so entries made while converting one file are still
 * there for the next.
 */
module ClassRegistry {
  import opened Wrappers
  import opened Ast

  class Registry {
    var classes: map<string, ClassRef>

    /** The table starts empty when the module is loaded. */
    constructor()
      ensures classes == map[]
    {
      classes := map[];
    }

    /** `getClassNode(moduleName)`: the registered node, or undefined. */
    function GetClassNode(moduleName: string): (r: Option<ClassRef>)
      reads this
      ensures r.Some? <==> moduleName in classes
      ensures r.Some? ==> r.value == classes[moduleName]
    {
      if moduleName in classes then Some(classes[moduleName]) else None
    }

    /**
     * `registerClassNode(moduleName, node)`: afterwards the name yields the
     * node, overwriting an earlier entry, and every other name yields what
     * it did before.
     */
    method RegisterClassNode(moduleName: string, node: ClassRef)
      modifies this
      ensures classes == old(classes)[moduleName := node]
      ensures GetClassNode(moduleName) == Some(node)
      ensures forall other :: other != moduleName ==> GetClassNode(other) == old(GetClassNode(other))
    {
      classes := classes[moduleName := node];
    }
  }
}
