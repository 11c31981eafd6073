/** Approval messages: an endorsement of the parent, or a skip over missing heights. */
module Approvals {
  import opened Basics

  type Address = nat

  datatype ApprovalInner = Endorsement(hash: CryptoHash) | Skip(height: Height)

  datatype ApprovalContent = ApprovalContent(inner: ApprovalInner, targetHeight: Height)

  datatype ApprovalValidated = ApprovalValidated(content: ApprovalContent, signature: nat, validator: Address)

  function NewInner(parentHash: CryptoHash, parentHeight: Height, target: Height): ApprovalInner {
    if target == parentHeight + 1 then Endorsement(parentHash) else Skip(parentHeight)
  }

  function NewContent(parentHash: CryptoHash, parentHeight: Height, target: Height): ApprovalContent {
    ApprovalContent(NewInner(parentHash, parentHeight, target), target)
  }
}
