/** Pods, and the name of the controller that a pod belongs to. */
module Pods {
  import opened Text

  datatype ContainerPort = ContainerPort(containerPort: int, hostPort: int, hostIP: string)

  datatype Container = Container(name: string, ports: seq<ContainerPort>)

  datatype Owner = Owner(kind: string, name: string)

  datatype Pod = Pod(
    name: string, nodeName: string, owners: seq<Owner>, hostNetwork: bool, containers: seq<Container>)

  /** `strings.CutSuffix`. */
  function CutSuffix(s: string, suffix: string): Option<string>
  {
    if |suffix| <= |s| && s[|s| - |suffix|..] == suffix then Some(s[..|s| - |suffix|]) else None
  }

  /** None is the error, and also the slice out of range of a ReplicaSet name without a hyphen. */
  function ExtractControllerName(pod: Pod): Option<string>
  {
    if pod.owners == [] then Some(pod.name)
    else
      var owner := pod.owners[0];
      if owner.kind == "Node" then CutSuffix(pod.name, "-" + pod.nodeName)
      else if owner.kind == "ReplicaSet" then
        var lastDash := LastIndex(owner.name, '-');
        if lastDash < 0 then None else Some(owner.name[..lastDash])
      else if owner.kind in ["DaemonSet", "StatefulSet", "ReplicationController"] then Some(owner.name)
      else None
  }

  /** A static pod is named after its node, a ReplicaSet after its Deployment with a hyphen-free hash, and
      the other controllers give their pods their own name. */
  ghost predicate IsControllerName(pod: Pod, name: string)
  {
    if pod.owners == [] then name == pod.name
    else
      var owner := pod.owners[0];
      match owner.kind
      case "Node" => pod.name == name + "-" + pod.nodeName
      case "ReplicaSet" => exists hash :: owner.name == name + "-" + hash && '-' !in hash
      case "DaemonSet" => name == owner.name
      case "StatefulSet" => name == owner.name
      case "ReplicationController" => name == owner.name
      case _ => false
  }

  ghost predicate HasControllerName(pod: Pod) { exists name :: IsControllerName(pod, name) }

  /** The name resolves to exactly what the pod or its owner is named after. */
  lemma ControllerNameIsInverse(pod: Pod, name: string)
    ensures ExtractControllerName(pod) == Some(name) <==> IsControllerName(pod, name)
  {
    if pod.owners != [] {
      var owner := pod.owners[0];
      if owner.kind == "Node" {
        SuffixIsCut(pod.name, name, pod.nodeName);
      } else if owner.kind == "ReplicaSet" {
        CutAtLast(owner.name, '-', name);
        var i := LastIndex(owner.name, '-');
        assert i >= 0 && owner.name[..i] == name <==> i == |name| && name <= owner.name;
      }
    }
  }

  lemma SuffixIsCut(s: string, name: string, node: string)
    ensures CutSuffix(s, "-" + node) == Some(name) <==> s == name + "-" + node
  {
    var suffix := "-" + node;
    assert name + "-" + node == name + suffix;
    assert (name + suffix)[|name|..] == suffix && (name + suffix)[..|name|] == name;
    if |suffix| <= |s| { assert s == s[..|s| - |suffix|] + s[|s| - |suffix|..]; }
  }

  lemma ControllerNameExists(pod: Pod)
    ensures ExtractControllerName(pod).Some? <==> HasControllerName(pod)
  {
    forall name ensures ExtractControllerName(pod) == Some(name) <==> IsControllerName(pod, name) {
      ControllerNameIsInverse(pod, name);
    }
    if ExtractControllerName(pod).Some? { assert IsControllerName(pod, ExtractControllerName(pod).value); }
  }
}
