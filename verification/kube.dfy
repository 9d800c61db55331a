/** The Kubernetes objects the updater touches, reduced to the fields it
    reads. */
module Kube {

  /** `api.Container`. */
  datatype Container = Container(name: string, image: string)

  /** `extensions.Deployment`; `containers` is `Spec.Template.Spec.Containers`. */
  datatype Deployment = Deployment(name: string, containers: seq<Container>)

  /** A parsed label selector (`labels.Selector`), kept opaque. */
  datatype Selector = Selector(requirement: string)

  /** `batch.Job`, referenced only by name. */
  datatype Job = Job(name: string)
}
